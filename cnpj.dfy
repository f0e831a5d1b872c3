/** The fund identifier (CNPJ) canonicaliser `pontua_cnpj` of
    src/comparar_fundos_br/fundosbr.py: pad with zeros to 14 characters when
    the raw string is shorter than 14, delete `-`, `.` and `/`, then re-insert
    them as `NN.NNN.NNN/NNNN-NN`. */
module Cnpj {
  import opened Text

  predicate IsSeparator(c: char) { c == '-' || c == '.' || c == '/' }

  predicate NoSeparators(s: string) { forall k :: 0 <= k < |s| ==> !IsSeparator(s[k]) }

  function Zeros(n: nat): (r: string)
    ensures |r| == n && forall k :: 0 <= k < n ==> r[k] == '0'
  {
    seq(n, _ => '0')
  }

  /** Python's `str.zfill(width)`: zeros on the left, after a leading sign. */
  function ZFill(s: string, width: nat): (r: string)
    ensures |r| == if |s| >= width then |s| else width
  {
    if |s| >= width then s
    else if |s| > 0 && (s[0] == '+' || s[0] == '-') then [s[0]] + Zeros(width - |s|) + s[1..]
    else Zeros(width - |s|) + s
  }

  /** `.replace("-", "").replace(".", "").replace("/", "")`. */
  function RemoveSeparators(s: string): (r: string)
    ensures NoSeparators(r)
    ensures |r| <= |s|
  {
    if s == [] then []
    else (if IsSeparator(s[0]) then [] else [s[0]]) + RemoveSeparators(s[1..])
  }

  /** Python's clamped slice `s[i:j]`. */
  function Slice(s: string, i: nat, j: nat): (r: string)
    requires i <= j
  {
    var a := if i < |s| then i else |s|;
    var b := if j < |s| then j else |s|;
    s[a..b]
  }

  /** Python's clamped slice `s[i:]`. */
  function SliceFrom(s: string, i: nat): string {
    if i < |s| then s[i..] else []
  }

  /** The string after the padding step (fundosbr.py:28-29). */
  function Padded(cnpj: string): string {
    if |cnpj| < 14 then ZFill(cnpj, 14) else cnpj
  }

  /** The string after padding and deleting separators (fundosbr.py:28-30). */
  function Bare(cnpj: string): string {
    RemoveSeparators(Padded(cnpj))
  }

  /** Inserting the separators at fixed positions (fundosbr.py:31-32). */
  function Punctuate(d: string): string {
    Slice(d, 0, 2) + "." + Slice(d, 2, 5) + "." + Slice(d, 5, 8) + "/" + Slice(d, 8, 12) + "-" + SliceFrom(d, 12)
  }

  /** `pontua_cnpj(cnpj)`. Deleting the separators from the result gives
      back the padded, separator-free input, and exactly four characters were
      added. */
  function PontuaCnpj(cnpj: string): (r: string)
    ensures RemoveSeparators(r) == Bare(cnpj)
    ensures |r| == |Bare(cnpj)| + 4
  {
    PunctuateRoundTrip(Bare(cnpj));
    Punctuate(Bare(cnpj))
  }

  /** The canonical shape `NN.NNN.NNN/NNNN-NN`. */
  predicate IsCanonical(c: string) {
    && |c| == 18
    && c[2] == '.' && c[6] == '.' && c[10] == '/' && c[15] == '-'
    && forall k :: 0 <= k < 18 && k != 2 && k != 6 && k != 10 && k != 15 ==> IsDigit(c[k])
  }

  // ---------------------------------------------------------------------
  // Proofs

  lemma {:induction false} RemoveSeparatorsAppend(s: string, t: string)
    ensures RemoveSeparators(s + t) == RemoveSeparators(s) + RemoveSeparators(t)
  {
    if s == [] {
      assert s + t == t;
    } else {
      assert (s + t)[1..] == s[1..] + t;
      RemoveSeparatorsAppend(s[1..], t);
    }
  }

  lemma {:induction false} RemoveSeparatorsNone(s: string)
    requires NoSeparators(s)
    ensures RemoveSeparators(s) == s
  {
    if s != [] {
      RemoveSeparatorsNone(s[1..]);
    }
  }

  /** The clamped slices of `Punctuate` partition any string. */
  lemma SlicesPartition(d: string)
    ensures Slice(d, 0, 2) + Slice(d, 2, 5) + Slice(d, 5, 8) + Slice(d, 8, 12) + SliceFrom(d, 12) == d
  {
  }

  /** Deleting the separators from the punctuated form of a separator-free
      string gives that string back. */
  lemma PunctuateRoundTrip(d: string)
    requires NoSeparators(d)
    ensures RemoveSeparators(Punctuate(d)) == d
    ensures |Punctuate(d)| == |d| + 4
  {
    var p1, p2, p3, p4, p5 := Slice(d, 0, 2), Slice(d, 2, 5), Slice(d, 5, 8), Slice(d, 8, 12), SliceFrom(d, 12);
    SlicesPartition(d);
    assert NoSeparators(p1) && NoSeparators(p2) && NoSeparators(p3) && NoSeparators(p4) && NoSeparators(p5) by {
      assert forall k :: 0 <= k < |p1| ==> p1[k] in d;
      assert forall k :: 0 <= k < |p2| ==> p2[k] in d;
      assert forall k :: 0 <= k < |p3| ==> p3[k] in d;
      assert forall k :: 0 <= k < |p4| ==> p4[k] in d;
      assert forall k :: 0 <= k < |p5| ==> p5[k] in d;
    }
    var q1 := p1 + ".";
    var q3 := q1 + p2 + ".";
    var q5 := q3 + p3 + "/";
    var q7 := q5 + p4 + "-";
    assert Punctuate(d) == q7 + p5;
    RemoveSeparatorsNone(p1);
    AppendSeparator(p1, ".");
    AppendPiece(q1, p2);
    AppendSeparator(q1 + p2, ".");
    AppendPiece(q3, p3);
    AppendSeparator(q3 + p3, "/");
    AppendPiece(q5, p4);
    AppendSeparator(q5 + p4, "-");
    AppendPiece(q7, p5);
  }

  lemma AppendSeparator(x: string, sep: string)
    requires sep == "." || sep == "/" || sep == "-"
    ensures RemoveSeparators(x + sep) == RemoveSeparators(x)
  {
    RemoveSeparatorsAppend(x, sep);
  }

  lemma AppendPiece(x: string, p: string)
    requires NoSeparators(p)
    ensures RemoveSeparators(x + p) == RemoveSeparators(x) + p
  {
    RemoveSeparatorsAppend(x, p);
    RemoveSeparatorsNone(p);
  }

  /** On a 14-character string without separators the result is
      `d[0:2].d[2:5].d[5:8]/d[8:12]-d[12:14]`, 18 characters long. */
  lemma FourteenCharacters(d: string)
    requires |d| == 14 && NoSeparators(d)
    ensures PontuaCnpj(d) == d[0..2] + "." + d[2..5] + "." + d[5..8] + "/" + d[8..12] + "-" + d[12..14]
    ensures |PontuaCnpj(d)| == 18
    ensures RemoveSeparators(PontuaCnpj(d)) == d
  {
    RemoveSeparatorsNone(d);
  }

  /** Padding depends on the length of the raw input, before separators are
      deleted: inputs of 14 characters or more are never padded. */
  lemma PaddingRule(cnpj: string)
    ensures |cnpj| >= 14 ==> Bare(cnpj) == RemoveSeparators(cnpj)
    ensures |cnpj| < 14 ==> |Padded(cnpj)| == 14
  {
  }

  /** A string of 11 to 14 digits gains the missing leading zeros, and its
      canonical form has the shape `NN.NNN.NNN/NNNN-NN`. */
  lemma ShortDigitString(s: string)
    requires AllDigits(s) && 11 <= |s| <= 14
    ensures Bare(s) == Zeros(14 - |s|) + s
    ensures IsCanonical(PontuaCnpj(s))
  {
    var z := Zeros(14 - |s|);
    assert NoSeparators(s) && NoSeparators(z);
    RemoveSeparatorsNone(s);
    RemoveSeparatorsNone(z + s);
    if |s| < 14 {
      assert Padded(s) == z + s;
    } else {
      assert z + s == s;
    }
    DigitsCanonical(z + s);
  }

  /** An 11-digit input gains exactly three leading zeros. */
  lemma ElevenDigits(s: string)
    requires AllDigits(s) && |s| == 11
    ensures Bare(s) == "000" + s
    ensures PontuaCnpj(s) == PontuaCnpj("000" + s)
  {
    ShortDigitString(s);
    assert Zeros(3) == "000";
    ShortDigitString("000" + s);
  }

  /** Fourteen digits punctuate to the canonical shape. */
  lemma DigitsCanonical(d: string)
    requires AllDigits(d) && |d| == 14
    ensures IsCanonical(PontuaCnpj(d))
  {
    assert NoSeparators(d);
    FourteenCharacters(d);
    SliceDigits(d, 0, 2);
    SliceDigits(d, 2, 5);
    SliceDigits(d, 5, 8);
    SliceDigits(d, 8, 12);
    SliceDigits(d, 12, 14);
    GroupsCanonical(d[0..2], d[2..5], d[5..8], d[8..12], d[12..14]);
  }

  lemma SliceDigits(d: string, i: nat, j: nat)
    requires AllDigits(d) && i <= j <= |d|
    ensures AllDigits(d[i..j])
  {
    assert forall k :: 0 <= k < j - i ==> d[i..j][k] == d[i + k];
  }

  /** Five digit groups of 2, 3, 3, 4 and 2 digits joined by the separators
      have the canonical shape. */
  lemma GroupsCanonical(g1: string, g2: string, g3: string, g4: string, g5: string)
    requires |g1| == 2 && |g2| == 3 && |g3| == 3 && |g4| == 4 && |g5| == 2
    requires AllDigits(g1) && AllDigits(g2) && AllDigits(g3) && AllDigits(g4) && AllDigits(g5)
    ensures IsCanonical(g1 + "." + g2 + "." + g3 + "/" + g4 + "-" + g5)
  {
    var c := g1 + "." + g2 + "." + g3 + "/" + g4 + "-" + g5;
    assert c[2] == '.' && c[6] == '.' && c[10] == '/' && c[15] == '-';
    forall k | 0 <= k < 18 && k != 2 && k != 6 && k != 10 && k != 15 ensures IsDigit(c[k]) {
      if k < 2 { assert c[k] == g1[k]; }
      else if k < 6 { assert c[k] == g2[k - 3]; }
      else if k < 10 { assert c[k] == g3[k - 7]; }
      else if k < 15 { assert c[k] == g4[k - 11]; }
      else { assert c[k] == g5[k - 16]; }
    }
  }

  /** Deleting separators around one separator character. */
  lemma DropSeparatorAt(s: string, i: nat)
    requires i < |s| && IsSeparator(s[i])
    ensures RemoveSeparators(s) == RemoveSeparators(s[..i]) + RemoveSeparators(s[i + 1..])
  {
    var before, after := s[..i], s[i + 1..];
    var tail := s[i..];
    assert s == before + tail;
    RemoveSeparatorsAppend(before, tail);
    assert tail[0] == s[i] && tail[1..] == after;
    assert RemoveSeparators(tail) == RemoveSeparators(after);
  }

  /** A canonical identifier is its five digit groups and four separators. */
  lemma CanonicalSplit(c: string)
    requires IsCanonical(c)
    ensures c == c[0..2] + "." + c[3..6] + "." + c[7..10] + "/" + c[11..15] + "-" + c[16..18]
  {
  }

  lemma DigitGroup(c: string, i: nat, j: nat)
    requires IsCanonical(c)
    requires (i, j) == (0, 2) || (i, j) == (3, 6) || (i, j) == (7, 10) || (i, j) == (11, 15) || (i, j) == (16, 18)
    ensures NoSeparators(c[i..j])
  {
    forall k | 0 <= k < j - i ensures !IsSeparator(c[i..j][k]) {
      var n := i + k;
      assert n != 2 && n != 6 && n != 10 && n != 15 && 0 <= n < 18;
      assert c[i..j][k] == c[n] && IsDigit(c[n]);
    }
  }

  /** Deleting the separators of a canonical identifier leaves its 14 digits. */
  lemma CanonicalDigits(c: string)
    requires IsCanonical(c)
    ensures RemoveSeparators(c) == c[0..2] + c[3..6] + c[7..10] + c[11..15] + c[16..18]
  {
    CanonicalSplit(c);
    DigitGroup(c, 0, 2);
    DigitGroup(c, 3, 6);
    DigitGroup(c, 7, 10);
    DigitGroup(c, 11, 15);
    DigitGroup(c, 16, 18);
    var q1 := c[0..2] + ".";
    var q3 := q1 + c[3..6] + ".";
    var q5 := q3 + c[7..10] + "/";
    var q7 := q5 + c[11..15] + "-";
    RemoveSeparatorsNone(c[0..2]);
    AppendSeparator(c[0..2], ".");
    AppendPiece(q1, c[3..6]);
    AppendSeparator(q1 + c[3..6], ".");
    AppendPiece(q3, c[7..10]);
    AppendSeparator(q3 + c[7..10], "/");
    AppendPiece(q5, c[11..15]);
    AppendSeparator(q5 + c[11..15], "-");
    AppendPiece(q7, c[16..18]);
  }

  /** The clamped slices of `Punctuate` of five groups of 2, 3, 3, 4 and 2
      characters are the groups. */
  lemma PunctuateGroups(g1: string, g2: string, g3: string, g4: string, g5: string)
    requires |g1| == 2 && |g2| == 3 && |g3| == 3 && |g4| == 4 && |g5| == 2
    ensures Punctuate(g1 + g2 + g3 + g4 + g5) == g1 + "." + g2 + "." + g3 + "/" + g4 + "-" + g5
  {
    var d := g1 + g2 + g3 + g4 + g5;
    assert d[0..2] == g1 && d[2..5] == g2 && d[5..8] == g3 && d[8..12] == g4 && d[12..] == g5;
  }

  /** Canonical identifiers are fixed points of `pontua_cnpj`. */
  lemma CanonicalFixedPoint(c: string)
    requires IsCanonical(c)
    ensures PontuaCnpj(c) == c
  {
    CanonicalDigits(c);
    assert Bare(c) == RemoveSeparators(c);
    PunctuateGroups(c[0..2], c[3..6], c[7..10], c[11..15], c[16..18]);
    CanonicalSplit(c);
  }

  /** A canonical identifier and its bare 14 digits canonicalise alike. */
  lemma BareSpelling(c: string)
    requires IsCanonical(c)
    ensures PontuaCnpj(RemoveSeparators(c)) == c
    ensures PontuaCnpj(c) == c
  {
    CanonicalDigits(c);
    CanonicalFixedPoint(c);
    var d := RemoveSeparators(c);
    assert |d| == 14 && NoSeparators(d);
    FourteenCharacters(d);
  }

  /** Punctuating an already punctuated identifier changes nothing exactly
      when the padded, separator-free input has at least ten characters; in
      particular for every 14-character identifier. */
  lemma IdempotentIff(cnpj: string)
    ensures PontuaCnpj(PontuaCnpj(cnpj)) == PontuaCnpj(cnpj) <==> |Bare(cnpj)| >= 10
  {
    var t := Bare(cnpj);
    var r := PontuaCnpj(cnpj);
    if |t| >= 10 {
      assert Bare(r) == t;
    } else {
      PaddedBare(r);
    }
  }

  /** Padding a short string adds as many characters as it was short of
      fourteen, none of them a separator. */
  lemma PaddedBare(r: string)
    requires |r| < 14
    ensures |Bare(r)| == 14 - |r| + |RemoveSeparators(r)|
  {
    var z := Zeros(14 - |r|);
    assert NoSeparators(z);
    RemoveSeparatorsNone(z);
    if r != [] && (r[0] == '+' || r[0] == '-') {
      RemoveSeparatorsAppend([r[0]] + z, r[1..]);
      RemoveSeparatorsAppend([r[0]], z);
      RemoveSeparatorsAppend([r[0]], r[1..]);
      assert r == [r[0]] + r[1..];
    } else {
      RemoveSeparatorsAppend(z, r);
    }
  }

  lemma {:induction false} OnlySeparators(s: string)
    requires forall k :: 0 <= k < |s| ==> IsSeparator(s[k])
    ensures RemoveSeparators(s) == []
  {
    if s != [] {
      OnlySeparators(s[1..]);
    }
  }

  /** The idempotence that holds for well-formed identifiers fails on
      malformed ones: fourteen dots lose every character, and the
      punctuated result `../-` is then padded with ten zeros. */
  lemma NotIdempotentOnSeparators()
    ensures Bare("..............") == []
    ensures PontuaCnpj(PontuaCnpj("..............")) != PontuaCnpj("..............")
  {
    OnlySeparators("..............");
    IdempotentIff("..............");
  }

  /** The canonical form contains no space, so it can head the display key
      `CNPJ // name`. */
  lemma CanonicalHasNoSpace(c: string)
    requires IsCanonical(c)
    ensures forall k :: 0 <= k < |c| ==> c[k] != ' '
  {
  }
}
