/** Synthetic view events (dec/publisher.py, create_fake_event).
    The random draws and the clock reading are inputs, so the event is a
    pure function of them. */
module Events {

  /** The country codes an event may carry. */
  const COUNTRIES: set<string> := {"IT", "FR", "EN", "US", "CH", "RU", "DE", "NE", "JP"}

  /** An enumeration of COUNTRIES; `random.sample(countries, 1)[0]` picks one
      of its positions. */
  const COUNTRY_ORDER: seq<string> := ["IT", "FR", "EN", "US", "CH", "RU", "DE", "NE", "JP"]

  /** Number of tenths-of-a-second values `random.randrange(0, 300)` draws from. */
  const VIEWABLE_TENTHS_BOUND: nat := 300

  /** One view event. `viewableTenths` is viewable_time times ten, which is
      exact because viewable_time is drawn as k / 10.0. */
  datatype Event = Event(
    clip: string,
    country: string,
    eventId: string,
    publisherId: string,
    viewableTenths: nat,
    timestamp: real)

  /** The outcomes of the random calls made for one event: the two `randint`
      results, the position drawn by `random.sample`, the `uuid4` text and
      the `randrange` result. */
  datatype Draws = Draws(clip: nat, country: nat, eventId: string, publisher: nat, viewable: nat)

  function Pow10(n: nat): (p: nat)
    ensures p >= 1
  {
    if n == 0 then 1 else 10 * Pow10(n - 1)
  }

  /** The ranges the random source draws from, as written: `randint` includes
      both of its bounds. */
  predicate DrawsInRange(d: Draws, clipLength: nat, publisherLength: nat) {
    && d.clip <= Pow10(clipLength)
    && d.country < |COUNTRY_ORDER|
    && d.publisher <= Pow10(publisherLength)
    && d.viewable < VIEWABLE_TENTHS_BOUND
  }

  predicate IsDigit(c: char) {
    '0' <= c <= '9'
  }

  predicate IsDecimal(s: string) {
    forall i :: 0 <= i < |s| ==> IsDigit(s[i])
  }

  function DigitChar(v: nat): (c: char)
    requires v < 10
    ensures IsDigit(c) && c as int - '0' as int == v
  {
    ('0' as int + v) as char
  }

  /** The numeric value of a string of decimal digits, most significant first. */
  function DigitsValue(s: string): nat
    requires IsDecimal(s)
  {
    if s == [] then 0
    else DigitsValue(s[..|s| - 1]) * 10 + (s[|s| - 1] as int - '0' as int)
  }

  /** `str(v)` for a non-negative integer: all digits, reading back as v,
      NumDigits(v) characters long and without a leading zero unless it is
      "0". */
  function DecimalString(v: nat): (s: string)
    ensures IsDecimal(s) && DigitsValue(s) == v
    ensures |s| == NumDigits(v)
    ensures v > 0 ==> s[0] != '0'
  {
    if v < 10 then [DigitChar(v)]
    else
      var t := DecimalString(v / 10) + [DigitChar(v % 10)];
      assert t[..|t| - 1] == DecimalString(v / 10);
      t
  }

  /** The number of decimal digits of v. */
  function NumDigits(v: nat): nat
  {
    if v < 10 then 1 else 1 + NumDigits(v / 10)
  }

  function Zeros(k: nat): (z: string)
    ensures |z| == k && forall i :: 0 <= i < k ==> z[i] == '0'
  {
    seq(k, _ => '0')
  }

  /** `s.zfill(width)` for a string without a sign: pad on the left with
      '0' up to `width`, leaving longer strings alone. */
  function ZFill(s: string, width: int): (r: string)
    ensures |r| == if |s| >= width then |s| else width
    ensures r[|r| - |s|..] == s
    ensures forall i :: 0 <= i < |r| - |s| ==> r[i] == '0'
  {
    if |s| >= width then s else Zeros(width - |s|) + s
  }

  /** `str(v).zfill(width)`, how clip and publisher ids are formed: all
      digits, reading back as v, and as long as the longer of `str(v)` and
      the width. */
  function FormatId(v: nat, width: nat): (id: string)
    ensures IsDecimal(id) && DigitsValue(id) == v
    ensures |id| == if NumDigits(v) >= width then NumDigits(v) else width
  {
    var s := DecimalString(v);
    if |s| >= width then ZFill(s, width)
    else
      LeadingZerosValue(width - |s|, s);
      ZFill(s, width)
  }

  /** create_fake_event(clip_length, publisher_length) with its random draws
      and the clock reading `now` given. The fields lie in their domains:
      the country is one of COUNTRIES, viewable_time is k/10 for k in
      [0, 300), and both ids are zero-padded decimal forms of their draws. */
  function CreateFakeEvent(clipLength: nat, publisherLength: nat, d: Draws, now: real): (e: Event)
    requires DrawsInRange(d, clipLength, publisherLength)
    ensures e.country in COUNTRIES
    ensures e.viewableTenths < VIEWABLE_TENTHS_BOUND
    ensures e.eventId == d.eventId && e.timestamp == now
    ensures IsDecimal(e.clip) && DigitsValue(e.clip) == d.clip
    ensures IsDecimal(e.publisherId) && DigitsValue(e.publisherId) == d.publisher
    ensures |e.clip| == (if NumDigits(d.clip) >= clipLength then NumDigits(d.clip) else clipLength)
    ensures |e.publisherId| == (if NumDigits(d.publisher) >= publisherLength then NumDigits(d.publisher) else publisherLength)
  {
    CountryOrderIsCountries();
    Event(
      clip := FormatId(d.clip, clipLength),
      country := COUNTRY_ORDER[d.country],
      eventId := d.eventId,
      publisherId := FormatId(d.publisher, publisherLength),
      viewableTenths := d.viewable,
      timestamp := now)
  }

  // ---------------------------------------------------------------------
  // Decimal strings

  /** Leading zeros do not change the value of a digit string. */
  lemma {:induction false} LeadingZerosValue(k: nat, s: string)
    requires IsDecimal(s)
    ensures IsDecimal(Zeros(k) + s)
    ensures DigitsValue(Zeros(k) + s) == DigitsValue(s)
    decreases |s|
  {
    var t := Zeros(k) + s;
    if s == [] {
      assert t == Zeros(k);
      ZerosValue(k);
    } else {
      LeadingZerosValue(k, s[..|s| - 1]);
      assert t[..|t| - 1] == Zeros(k) + s[..|s| - 1];
    }
  }

  lemma {:induction false} ZerosValue(k: nat)
    ensures IsDecimal(Zeros(k)) && DigitsValue(Zeros(k)) == 0
  {
    if k > 0 {
      ZerosValue(k - 1);
      assert Zeros(k)[..k - 1] == Zeros(k - 1);
    }
  }

  /** For a positive width L, v fits in L digits exactly when v < 10^L. */
  lemma {:induction false} NumDigitsFits(v: nat, L: nat)
    requires L >= 1
    ensures NumDigits(v) <= L <==> v < Pow10(L)
  {
    if L == 1 {
      assert Pow10(1) == 10;
    } else if v < 10 {
      Pow10AtLeastTen(L);
    } else {
      NumDigitsFits(v / 10, L - 1);
      assert v / 10 < Pow10(L - 1) <==> v < 10 * Pow10(L - 1);
    }
  }

  lemma {:induction false} Pow10AtLeastTen(L: nat)
    requires L >= 1
    ensures Pow10(L) >= 10
  {
    if L > 1 {
      Pow10AtLeastTen(L - 1);
    }
  }

  /** 10^L has L + 1 digits. */
  lemma {:induction false} NumDigitsPow10(L: nat)
    ensures NumDigits(Pow10(L)) == L + 1
  {
    if L > 0 {
      NumDigitsPow10(L - 1);
      Pow10AtLeastTen(L);
      assert Pow10(L) / 10 == Pow10(L - 1);
    }
  }

  // ---------------------------------------------------------------------
  // Field domains

  /** For a positive width L and a draw in randint(0, 10**L), the id is L
      characters long, except for the top draw 10^L, which gives L + 1. */
  lemma FormatIdWidth(v: nat, L: nat)
    requires L >= 1 && v <= Pow10(L)
    ensures |FormatId(v, L)| == if v == Pow10(L) then L + 1 else L
  {
    NumDigitsFits(v, L);
    if v == Pow10(L) {
      NumDigitsPow10(L);
    }
  }

  lemma CountryOrderIsCountries()
    ensures |COUNTRY_ORDER| == 9 && |COUNTRIES| == 9
    ensures forall i :: 0 <= i < |COUNTRY_ORDER| ==> COUNTRY_ORDER[i] in COUNTRIES
    ensures forall c :: c in COUNTRIES ==> c in COUNTRY_ORDER
  {
  }

  /** As written, the top draw of randint(0, 10**clip_length) yields a clip
      one character wider than clip_length (e.g. "10000" for width 4). */
  lemma ClipWidthAtTopDraw(clipLength: nat, publisherLength: nat, d: Draws, now: real)
    requires clipLength >= 1 && DrawsInRange(d, clipLength, publisherLength)
    requires d.clip == Pow10(clipLength)
    ensures |CreateFakeEvent(clipLength, publisherLength, d, now).clip| == clipLength + 1
  {
    FormatIdWidth(d.clip, clipLength);
  }

  /** The evidently intended draw ranges: randint(0, 10**L - 1). */
  predicate IntendedDrawsInRange(d: Draws, clipLength: nat, publisherLength: nat) {
    && d.clip < Pow10(clipLength)
    && d.country < |COUNTRY_ORDER|
    && d.publisher < Pow10(publisherLength)
    && d.viewable < VIEWABLE_TENTHS_BOUND
  }

  /** With the intended ranges, both ids have exactly their configured
      widths. */
  lemma FixedWidthIds(clipLength: nat, publisherLength: nat, d: Draws, now: real)
    requires clipLength >= 1 && publisherLength >= 1
    requires IntendedDrawsInRange(d, clipLength, publisherLength)
    ensures DrawsInRange(d, clipLength, publisherLength)
    ensures |CreateFakeEvent(clipLength, publisherLength, d, now).clip| == clipLength
    ensures |CreateFakeEvent(clipLength, publisherLength, d, now).publisherId| == publisherLength
  {
    FormatIdWidth(d.clip, clipLength);
    FormatIdWidth(d.publisher, publisherLength);
  }
}
