/**
 * The metadata record attached to every catalog node: a string-to-string
 * property bag with a "changed" flag that every write sets.
 */
module MetaData {

  datatype MetaDataList = MetaDataList(values: map<string, string>, changed: bool)

  /** A key that was never written reads as the empty string. */
  function Get(md: MetaDataList, key: string): string
  {
    if key in md.values then md.values[key] else ""
  }

  function Set(md: MetaDataList, key: string, value: string): (r: MetaDataList)
    ensures Get(r, key) == value && r.changed
    ensures forall k :: k != key ==> Get(r, k) == Get(md, k)
  {
    MetaDataList(md.values[key := value], true)
  }

  function ResetChangedFlag(md: MetaDataList): (r: MetaDataList)
    ensures !r.changed && forall k :: Get(r, k) == Get(md, k)
  {
    MetaDataList(md.values, false)
  }

  predicate IsDigit(c: char)
  {
    '0' <= c <= '9'
  }

  function DigitValue(c: char): nat
    requires IsDigit(c)
  {
    c as int - '0' as int
  }

  function DigitChar(d: nat): (c: char)
    requires d < 10
    ensures IsDigit(c) && DigitValue(c) == d
  {
    ('0' as int + d) as char
  }

  /** The longest prefix of `s` made of decimal digits. */
  function LeadingDigits(s: string): (r: string)
    ensures |r| <= |s| && r == s[..|r|]
    ensures forall i :: 0 <= i < |r| ==> IsDigit(r[i])
  {
    if s == [] || !IsDigit(s[0]) then [] else [s[0]] + LeadingDigits(s[1..])
  }

  /** The number a digit string denotes, most significant digit first. */
  function DigitsValue(ds: string): nat
    requires forall i :: 0 <= i < |ds| ==> IsDigit(ds[i])
  {
    if ds == [] then 0 else 10 * DigitsValue(ds[..|ds| - 1]) + DigitValue(ds[|ds| - 1])
  }

  /** `atoi` on a non-negative decimal: the value of the leading digits, 0 when there are none. */
  function ParseInt(s: string): nat
  {
    DigitsValue(LeadingDigits(s))
  }

  /** `std::to_string` on a non-negative number. */
  function IntToString(n: nat): (r: string)
    ensures r != []
    ensures forall i :: 0 <= i < |r| ==> IsDigit(r[i])
  {
    if n < 10 then [DigitChar(n)] else IntToString(n / 10) + [DigitChar(n % 10)]
  }

  lemma {:induction false} LeadingDigitsOfDigits(s: string)
    requires forall i :: 0 <= i < |s| ==> IsDigit(s[i])
    ensures LeadingDigits(s) == s
  {
    if s != [] {
      LeadingDigitsOfDigits(s[1..]);
    }
  }

  /** Writing a count and reading it back gives the count. */
  lemma {:induction false} ParseIntToString(n: nat)
    ensures ParseInt(IntToString(n)) == n
  {
    var r := IntToString(n);
    LeadingDigitsOfDigits(r);
    if n < 10 {
      assert r == [DigitChar(n)];
      assert r[..|r| - 1] == [];
      assert DigitsValue(r) == 10 * DigitsValue([]) + DigitValue(r[0]);
    } else {
      ParseIntToString(n / 10);
      var p := IntToString(n / 10);
      LeadingDigitsOfDigits(p);
      assert r[..|r| - 1] == p;
      assert DigitsValue(r) == 10 * DigitsValue(p) + n % 10;
    }
  }

  function GetInt(md: MetaDataList, key: string): nat
  {
    ParseInt(Get(md, key))
  }

  /**
   * The name the catalog sorts by: "sortname" when it is set, else "name".
   */
  function SortName(md: MetaDataList): (r: string)
    ensures r == Get(md, "sortname") || r == Get(md, "name")
    ensures Get(md, "sortname") != "" ==> r == Get(md, "sortname")
    ensures r != "" <==> Get(md, "sortname") != "" || Get(md, "name") != ""
  {
    if Get(md, "sortname") == "" then Get(md, "name") else Get(md, "sortname")
  }

  /** The record after a launch: one more play, and the time of this play. */
  function RecordLaunch(md: MetaDataList, now: string): MetaDataList
  {
    var timesPlayed := GetInt(md, "playcount") + 1;
    Set(Set(md, "playcount", IntToString(timesPlayed)), "lastplayed", now)
  }

  /** A launch adds exactly one to the play count and touches nothing but it and "lastplayed". */
  lemma RecordLaunchCounts(md: MetaDataList, now: string)
    ensures GetInt(RecordLaunch(md, now), "playcount") == GetInt(md, "playcount") + 1
    ensures Get(RecordLaunch(md, now), "lastplayed") == now
    ensures forall k :: k != "playcount" && k != "lastplayed" ==> Get(RecordLaunch(md, now), k) == Get(md, k)
    ensures RecordLaunch(md, now).changed
  {
    ParseIntToString(GetInt(md, "playcount") + 1);
  }
}
