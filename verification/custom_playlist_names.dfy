/** Names of custom playlists made in the main window: "USER." followed by
    the counter in at least three decimal digits (`ToString("D3")`). The
    counter is reset when a scan starts and incremented before each name is
    made, so the first name of a scan is "USER.001". */
module CustomPlaylistNames {
  import opened Wrappers

  const Prefix: string := "USER."

  function DigitChar(d: nat): (c: char)
    requires d < 10
    ensures '0' <= c <= '9' && c as int - '0' as int == d
  {
    ('0' as int + d) as char
  }

  predicate IsDigit(c: char) {
    '0' <= c <= '9'
  }

  predicate AllDigits(s: string) {
    forall i :: 0 <= i < |s| ==> IsDigit(s[i])
  }

  /** The decimal digits of `n`, most significant first, without leading zeros. */
  function Decimal(n: nat): (r: string)
    ensures 1 <= |r| && AllDigits(r)
    ensures |r| > 1 ==> r[0] != '0'
  {
    if n < 10 then [DigitChar(n)]
    else Decimal(n / 10) + [DigitChar(n % 10)]
  }

  function Zeros(k: nat): (r: string)
    ensures |r| == k && forall i :: 0 <= i < k ==> r[i] == '0'
  {
    if k == 0 then [] else Zeros(k - 1) + ['0']
  }

  /** `n.ToString("D3")` for a non-negative `n`: its digits, left-padded with
      zeros to three characters. */
  function D3(n: nat): (r: string)
    ensures |r| == if |Decimal(n)| < 3 then 3 else |Decimal(n)|
    ensures AllDigits(r)
  {
    var digits := Decimal(n);
    if |digits| < 3 then Zeros(3 - |digits|) + digits else digits
  }

  /** The name made for counter value `count`. */
  function CustomPlaylistName(count: nat): string {
    Prefix + D3(count)
  }

  /** The value of a string of decimal digits. */
  function DecimalValue(s: string): nat
    requires AllDigits(s)
  {
    if s == [] then 0
    else DecimalValue(s[..|s| - 1]) * 10 + (s[|s| - 1] as int - '0' as int)
  }

  /** Reads a custom playlist name back to its counter value. */
  function ParseCustomName(name: string): Option<nat> {
    if |name| > |Prefix| && name[..|Prefix|] == Prefix && AllDigits(name[|Prefix|..])
    then Some(DecimalValue(name[|Prefix|..]))
    else None
  }

  lemma {:induction false} DecimalValueOfDecimal(n: nat)
    ensures DecimalValue(Decimal(n)) == n
  {
    if n >= 10 {
      var d := Decimal(n);
      DecimalValueOfDecimal(n / 10);
      assert d[..|d| - 1] == Decimal(n / 10);
    }
  }

  lemma {:induction false} LeadingZerosAddNothing(k: nat, s: string)
    requires AllDigits(s)
    ensures AllDigits(Zeros(k) + s) && DecimalValue(Zeros(k) + s) == DecimalValue(s)
    decreases |s|, k
  {
    var z := Zeros(k) + s;
    if s == [] {
      assert z == Zeros(k);
      if k > 0 {
        LeadingZerosAddNothing(k - 1, []);
        assert z[..|z| - 1] == Zeros(k - 1) + [];
      }
    } else {
      LeadingZerosAddNothing(k, s[..|s| - 1]);
      assert z[..|z| - 1] == Zeros(k) + s[..|s| - 1];
    }
  }

  /** The padded counter reads back as the counter. */
  lemma D3RoundTrip(n: nat)
    ensures DecimalValue(D3(n)) == n
  {
    DecimalValueOfDecimal(n);
    var digits := Decimal(n);
    if |digits| < 3 {
      LeadingZerosAddNothing(3 - |digits|, digits);
    }
  }

  /** A name reads back as the counter it was made from. */
  lemma CustomNameRoundTrip(count: nat)
    ensures ParseCustomName(CustomPlaylistName(count)) == Some(count)
  {
    var name := CustomPlaylistName(count);
    assert name[..|Prefix|] == Prefix;
    assert name[|Prefix|..] == D3(count);
    D3RoundTrip(count);
  }

  /** Different counter values never give the same name. */
  lemma CustomNamesInjective(a: nat, b: nat)
    requires CustomPlaylistName(a) == CustomPlaylistName(b)
    ensures a == b
  {
    CustomNameRoundTrip(a);
    CustomNameRoundTrip(b);
  }

  /** The `CustomPlaylistCount` field of the main window. */
  datatype NameCounter = NameCounter(count: nat)

  /** `StartScan` resets the counter: the next name is "USER.001". */
  function StartScan(c: NameCounter): (r: NameCounter)
    ensures NextCustomName(r).0 == "USER.001"
  {
    assert Decimal(1) == ['1'];
    assert Zeros(2) == ['0', '0'];
    NameCounter(0)
  }

  /** The custom-playlist button: the counter is incremented first and the
      new value names the playlist. */
  function NextCustomName(c: NameCounter): (r: (string, NameCounter))
    ensures r.1.count == c.count + 1
    ensures ParseCustomName(r.0) == Some(r.1.count)
  {
    CustomNameRoundTrip(c.count + 1);
    (CustomPlaylistName(c.count + 1), NameCounter(c.count + 1))
  }

  /** Names never repeat within a scan: a press made after another (at a
      larger counter value, since every press increments it) makes a
      different name. */
  lemma NamesNeverRepeat(earlier: NameCounter, later: NameCounter)
    requires earlier.count < later.count
    ensures NextCustomName(earlier).0 != NextCustomName(later).0
  {
    var a, b := NextCustomName(earlier), NextCustomName(later);
    assert ParseCustomName(a.0) != ParseCustomName(b.0);
  }
}
