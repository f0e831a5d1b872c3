/** The Python string operations the core relies on: `strip`, `split`,
    `in` on strings, `startswith`/`endswith`, `upper`/`lower` and the
    `{:02d}` integer format. */
module Text {
  import opened Wrappers

  // ---------------------------------------------------------------------
  // Substrings

  /** `sub` occurs in `s` starting at index `i`. */
  predicate OccursAt(s: string, sub: string, i: int) {
    0 <= i && i + |sub| <= |s| && s[i..i + |sub|] == sub
  }

  /** Occurrences in `s[1..]` are the occurrences in `s` shifted by one. */
  lemma OccursShift(s: string, sub: string, j: int)
    requires |s| >= 1 && 1 <= j
    ensures OccursAt(s, sub, j) <==> OccursAt(s[1..], sub, j - 1)
  {
    if j + |sub| <= |s| {
      assert s[1..][j - 1..j - 1 + |sub|] == s[j..j + |sub|];
    }
  }

  /** Python's `s.find(sub)`: the first index at which `sub` occurs. */
  function Find(s: string, sub: string): (r: Option<nat>)
    ensures r.Some? ==> OccursAt(s, sub, r.value)
    ensures r.Some? ==> forall j :: 0 <= j < r.value ==> !OccursAt(s, sub, j)
    ensures r.None? ==> forall j :: !OccursAt(s, sub, j)
  {
    if |sub| > |s| then None
    else if s[..|sub|] == sub then Some(0)
    else
      var rest := Find(s[1..], sub);
      assert forall j :: 1 <= j ==> (OccursAt(s, sub, j) <==> OccursAt(s[1..], sub, j - 1)) by {
        forall j | 1 <= j ensures OccursAt(s, sub, j) <==> OccursAt(s[1..], sub, j - 1) {
          OccursShift(s, sub, j);
        }
      }
      match rest
      case None => None
      case Some(i) => Some(i + 1)
  }

  /** Python's `sub in s`. */
  predicate Contains(s: string, sub: string) {
    Find(s, sub).Some?
  }

  lemma ContainsIff(s: string, sub: string)
    ensures Contains(s, sub) <==> exists i :: OccursAt(s, sub, i)
  {
  }

  /** A string is contained in any string that has it as a slice. */
  lemma {:induction false} ContainsSlice(s: string, i: nat, j: nat)
    requires i <= j <= |s|
    ensures Contains(s, s[i..j])
  {
    assert OccursAt(s, s[i..j], i);
  }

  predicate StartsWith(s: string, prefix: string) {
    |prefix| <= |s| && s[..|prefix|] == prefix
  }

  predicate EndsWith(s: string, suffix: string) {
    |suffix| <= |s| && s[|s| - |suffix|..] == suffix
  }

  // ---------------------------------------------------------------------
  // split and join

  /** `sep.join(parts)`. */
  function Join(parts: seq<string>, sep: string): string {
    if parts == [] then ""
    else if |parts| == 1 then parts[0]
    else parts[0] + sep + Join(parts[1..], sep)
  }

  /** An occurrence inside a prefix is an occurrence in the whole string. */
  lemma OccursInPrefix(s: string, sub: string, i: nat, j: int)
    requires i <= |s|
    ensures OccursAt(s[..i], sub, j) ==> OccursAt(s, sub, j) && j + |sub| <= i
  {
    if 0 <= j && j + |sub| <= i {
      assert s[..i][j..j + |sub|] == s[j..j + |sub|];
    }
  }

  /** Nothing before the first occurrence of `sep` contains `sep`. */
  lemma PrefixBeforeFind(s: string, sep: string)
    requires |sep| > 0 && Find(s, sep).Some?
    ensures !Contains(s[..Find(s, sep).value], sep)
  {
    var i := Find(s, sep).value;
    forall j ensures OccursAt(s[..i], sep, j) ==> OccursAt(s, sep, j) && j < i {
      OccursInPrefix(s, sep, i, j);
    }
  }

  /** Python's `s.split(sep)` for a non-empty separator: the pieces between
      non-overlapping occurrences of `sep`, scanning from the left. */
  function Split(s: string, sep: string): (r: seq<string>)
    requires |sep| > 0
    ensures |r| >= 1
    ensures forall k :: 0 <= k < |r| ==> !Contains(r[k], sep)
    decreases |s|
  {
    match Find(s, sep)
    case None => [s]
    case Some(i) =>
      PrefixBeforeFind(s, sep);
      [s[..i]] + Split(s[i + |sep|..], sep)
  }

  /** Joining the pieces of a split with the same separator gives back the
      original string. */
  lemma {:induction false} JoinSplit(s: string, sep: string)
    requires |sep| > 0
    ensures Join(Split(s, sep), sep) == s
    decreases |s|
  {
    var f := Find(s, sep);
    if f.Some? {
      var i := f.value;
      var rest := s[i + |sep|..];
      JoinSplit(rest, sep);
      SplitAtFind(s, sep);
      JoinCons(s[..i], Split(rest, sep), sep);
      assert s[i..i + |sep|] == sep;
      ThreeSlices(s, i, i + |sep|);
    }
  }

  lemma ThreeSlices<T>(s: seq<T>, i: nat, j: nat)
    requires i <= j <= |s|
    ensures s == s[..i] + s[i..j] + s[j..]
  {
  }

  lemma SplitAtFind(s: string, sep: string)
    requires |sep| > 0 && Find(s, sep).Some?
    ensures Split(s, sep) == [s[..Find(s, sep).value]] + Split(s[Find(s, sep).value + |sep|..], sep)
  {
  }

  lemma JoinCons(p: string, parts: seq<string>, sep: string)
    requires |parts| >= 1
    ensures Join([p] + parts, sep) == p + sep + Join(parts, sep)
  {
    assert ([p] + parts)[1..] == parts;
  }

  /** The first piece of a split is everything before the first separator. */
  lemma SplitFirst(s: string, sep: string)
    requires |sep| > 0
    ensures Find(s, sep).None? ==> Split(s, sep) == [s]
    ensures Find(s, sep).Some? ==> Split(s, sep)[0] == s[..Find(s, sep).value]
  {
  }

  /** Splitting on a single character: one piece more than the number of
      occurrences of that character. */
  function CountChar(s: string, c: char): nat {
    if s == [] then 0 else (if s[0] == c then 1 else 0) + CountChar(s[1..], c)
  }

  lemma OccursAtChar(s: string, c: char, j: int)
    ensures OccursAt(s, [c], j) <==> 0 <= j < |s| && s[j] == c
  {
    if 0 <= j < |s| {
      assert s[j..j + 1] == [s[j]];
    }
  }

  lemma {:induction false} SplitCharLength(s: string, c: char)
    ensures |Split(s, [c])| == CountChar(s, c) + 1
    decreases |s|
  {
    match Find(s, [c])
    case None =>
      forall j | 0 <= j < |s| ensures s[j] != c {
        OccursAtChar(s, c, j);
      }
      NoOccurrenceNoCount(s, c);
    case Some(i) =>
      OccursAtChar(s, c, i);
      forall j | 0 <= j < i ensures s[..i][j] != c {
        OccursAtChar(s, c, j);
      }
      SplitCharLength(s[i + 1..], c);
      NoOccurrenceNoCount(s[..i], c);
      CountCharAppend(s[..i], s[i..], c);
      assert s == s[..i] + s[i..];
      assert s[i..][1..] == s[i + 1..];
  }

  lemma {:induction false} NoOccurrenceNoCount(s: string, c: char)
    requires forall j :: 0 <= j < |s| ==> s[j] != c
    ensures CountChar(s, c) == 0
  {
    if s != [] {
      NoOccurrenceNoCount(s[1..], c);
    }
  }

  lemma {:induction false} CountCharAppend(s: string, t: string, c: char)
    ensures CountChar(s + t, c) == CountChar(s, c) + CountChar(t, c)
  {
    if s == [] {
      assert s + t == t;
    } else {
      assert (s + t)[1..] == s[1..] + t;
      CountCharAppend(s[1..], t, c);
    }
  }

  // ---------------------------------------------------------------------
  // strip

  /** The ASCII whitespace that `bytes.strip()` removes. */
  predicate IsSpace(c: char) {
    c == ' ' || c == '\t' || c == '\n' || c == '\r' || c == '\U{0B}' || c == '\U{0C}'
  }

  /** The index of the first non-space character, or `|s|`. */
  function SpacesBefore(s: string): (i: nat)
    ensures i <= |s|
    ensures forall k :: 0 <= k < i ==> IsSpace(s[k])
    ensures i < |s| ==> !IsSpace(s[i])
  {
    if s == [] || !IsSpace(s[0]) then 0 else 1 + SpacesBefore(s[1..])
  }

  /** The index just after the last non-space character, or 0. */
  function SpacesAfter(s: string): (j: nat)
    ensures j <= |s|
    ensures forall k :: j <= k < |s| ==> IsSpace(s[k])
    ensures j > 0 ==> !IsSpace(s[j - 1])
  {
    if s == [] || !IsSpace(s[|s| - 1]) then |s| else SpacesAfter(s[..|s| - 1])
  }

  /** `strip()`: the string without leading and trailing whitespace. */
  function Strip(s: string): (r: string)
    ensures exists i, j :: 0 <= i <= j <= |s| && r == s[i..j]
                           && (forall k :: 0 <= k < i ==> IsSpace(s[k]))
                           && (forall k :: j <= k < |s| ==> IsSpace(s[k]))
    ensures r == [] || (!IsSpace(r[0]) && !IsSpace(r[|r| - 1]))
  {
    var i := SpacesBefore(s);
    var j := SpacesAfter(s);
    if j <= i then
      assert s[i..i] == [];
      []
    else
      s[i..j]
  }

  // ---------------------------------------------------------------------
  // Case mapping (ASCII and Latin-1 letters)

  function UpperChar(c: char): (u: char) {
    if 'a' <= c <= 'z' then (c as int - 32) as char
    else if '\U{E0}' <= c <= '\U{FE}' && c != '\U{F7}' then (c as int - 32) as char
    else c
  }

  function LowerChar(c: char): (l: char) {
    if 'A' <= c <= 'Z' then (c as int + 32) as char
    else if '\U{C0}' <= c <= '\U{DE}' && c != '\U{D7}' then (c as int + 32) as char
    else c
  }

  /** `str.upper()`. */
  function Upper(s: string): (r: string)
    ensures |r| == |s| && forall k :: 0 <= k < |s| ==> r[k] == UpperChar(s[k])
  {
    seq(|s|, k requires 0 <= k < |s| => UpperChar(s[k]))
  }

  /** `str.lower()`. */
  function Lower(s: string): (r: string)
    ensures |r| == |s| && forall k :: 0 <= k < |s| ==> r[k] == LowerChar(s[k])
  {
    seq(|s|, k requires 0 <= k < |s| => LowerChar(s[k]))
  }

  /** Upper-casing twice is upper-casing once. */
  lemma UpperIdempotent(s: string)
    ensures Upper(Upper(s)) == Upper(s)
  {
  }

  // ---------------------------------------------------------------------
  // Decimal formatting

  predicate IsDigit(c: char) { '0' <= c <= '9' }

  predicate AllDigits(s: string) { forall k :: 0 <= k < |s| ==> IsDigit(s[k]) }

  function DigitChar(d: nat): (c: char)
    requires d < 10
    ensures IsDigit(c)
  {
    ('0' as int + d) as char
  }

  /** The value of a string of decimal digits. */
  function DecimalValue(s: string): nat
    requires AllDigits(s)
  {
    if s == [] then 0 else 10 * DecimalValue(s[..|s| - 1]) + (s[|s| - 1] as int - '0' as int)
  }

  /** `str(n)` for a natural number. */
  function NatToString(n: nat): (r: string)
    ensures AllDigits(r) && |r| >= 1
    ensures n < 10 <==> |r| == 1
    ensures n < 100 ==> |r| <= 2
  {
    if n < 10 then [DigitChar(n)] else NatToString(n / 10) + [DigitChar(n % 10)]
  }

  lemma {:induction false} NatToStringValue(n: nat)
    ensures DecimalValue(NatToString(n)) == n
  {
    if n >= 10 {
      NatToStringValue(n / 10);
      var r := NatToString(n);
      assert r[..|r| - 1] == NatToString(n / 10);
    }
  }

  /** `"{:02d}".format(n)`: at least two characters, zero-padded after the
      sign. */
  function Format02(n: int): (r: string)
    ensures n >= 0 ==> AllDigits(r) && |r| >= 2
    ensures 0 <= n < 100 ==> |r| == 2
    ensures n < 0 ==> |r| >= 2 && r[0] == '-' && AllDigits(r[1..])
  {
    if n < 0 then "-" + NatToString(-n)
    else if n < 10 then "0" + NatToString(n)
    else NatToString(n)
  }

  /** The zero-padded form of a natural number reads back as that number. */
  lemma Format02Value(n: nat)
    ensures AllDigits(Format02(n)) && DecimalValue(Format02(n)) == n
  {
    NatToStringValue(n);
    if n < 10 {
      var r := Format02(n);
      assert r[..|r| - 1] == "0";
      assert DecimalValue("0") == 0 by { assert "0"[..0] == []; }
    }
  }
}
