/**
 The string toolkit the ingredient classifier is built from, modelled on the
 Python `str` operations it calls: `lower`, the `in` substring test,
 `split` on a separator (built here from a `partition`-style cut), `join`
 and `strip`.
 Strings are `seq<char>`; characters are Unicode scalar values.
 */
module Text {

  /* ---------------------------------------------------------------------
     Case mapping
     --------------------------------------------------------------------- */

  /** Upper-case letters this model maps: ASCII A-Z, the Latin-1 capitals
      U+00C0..U+00DE (which include the German umlauts Ä, Ö, Ü) except the
      multiplication sign U+00D7, and the capital sharp s U+1E9E. */
  predicate IsUpperChar(c: char) {
    || ('A' <= c <= 'Z')
    || (0xC0 <= c as int <= 0xDE && c as int != 0xD7)
    || c as int == 0x1E9E
  }

  /** Lower-case letters that have a single-character upper-case partner here. */
  predicate IsLowerChar(c: char) {
    || ('a' <= c <= 'z')
    || (0xE0 <= c as int <= 0xFE && c as int != 0xF7)
  }

  /** Per-character lower-casing, as Python's `str.lower` does it on the
      characters above; every other character is left alone. */
  function LowerChar(c: char): (r: char)
    ensures !IsUpperChar(r)
    ensures !IsUpperChar(c) ==> r == c
    ensures IsUpperChar(c) ==> r != c && (r == 'ß' || IsLowerChar(r))
  {
    if 'A' <= c <= 'Z' || (0xC0 <= c as int <= 0xDE && c as int != 0xD7) then
      (c as int + 32) as char
    else if c as int == 0x1E9E then
      0xDF as char
    else
      c
  }

  /** Per-character upper-casing; the inverse of `LowerChar` on the
      lower-case letters this model pairs with a capital. It leaves ß, ÿ
      (U+00FF) and µ (U+00B5) alone, which Python's `str.upper` maps to
      "SS", Ÿ (U+0178) and Μ (U+039C). */
  function UpperChar(c: char): (r: char)
    ensures !IsLowerChar(r)
    ensures !IsLowerChar(c) ==> r == c
  {
    if 'a' <= c <= 'z' || (0xE0 <= c as int <= 0xFE && c as int != 0xF7) then
      (c as int - 32) as char
    else
      c
  }

  function Lower(s: string): (r: string)
    ensures |r| == |s|
    ensures forall i :: 0 <= i < |s| ==> r[i] == LowerChar(s[i])
  {
    seq(|s|, i requires 0 <= i < |s| => LowerChar(s[i]))
  }

  function Upper(s: string): (r: string)
    ensures |r| == |s|
    ensures forall i :: 0 <= i < |s| ==> r[i] == UpperChar(s[i])
  {
    seq(|s|, i requires 0 <= i < |s| => UpperChar(s[i]))
  }

  /** A string every character of which `LowerChar` leaves alone. */
  predicate IsLower(s: string) {
    forall i :: 0 <= i < |s| ==> LowerChar(s[i]) == s[i]
  }

  lemma LowerCharIdempotent(c: char)
    ensures LowerChar(LowerChar(c)) == LowerChar(c)
  {
  }

  /** `Lower` produces lower-case text, and lower-case text is exactly the
      text `Lower` fixes. */
  lemma LowerIsLower(s: string)
    ensures IsLower(Lower(s))
    ensures IsLower(s) <==> Lower(s) == s
  {
    forall i | 0 <= i < |s| {
      LowerCharIdempotent(s[i]);
    }
    if IsLower(s) {
      assert forall i :: 0 <= i < |s| ==> Lower(s)[i] == s[i];
    }
  }

  /** Lower-casing twice is lower-casing once. */
  lemma LowerIdempotent(s: string)
    ensures Lower(Lower(s)) == Lower(s)
  {
    LowerIsLower(s);
    LowerIsLower(Lower(s));
  }

  /** Upper-casing first does not change what lower-casing yields. */
  lemma LowerOfUpper(s: string)
    ensures Lower(Upper(s)) == Lower(s)
  {
    forall i | 0 <= i < |s|
      ensures Lower(Upper(s))[i] == Lower(s)[i]
    {
      var c := s[i];
      if IsLowerChar(c) {
        assert IsUpperChar(UpperChar(c));
      }
    }
  }

  /** The two per-character maps undo each other on the letters they pair:
      every mapped capital except ẞ, and every paired lower-case letter. */
  lemma LowerUpperInverse(c: char)
    ensures IsUpperChar(c) && c as int != 0x1E9E ==> UpperChar(LowerChar(c)) == c
    ensures IsLowerChar(c) ==> LowerChar(UpperChar(c)) == c
  {
  }

  /** Every slice of lower-case text is lower-case. */
  lemma LowerSlice(s: string, i: int, j: int)
    requires IsLower(s)
    requires 0 <= i <= j <= |s|
    ensures IsLower(s[i..j])
  {
    assert forall k :: 0 <= k < j - i ==> s[i..j][k] == s[i + k];
  }

  /* ---------------------------------------------------------------------
     Substrings: Python's `p in s`
     --------------------------------------------------------------------- */

  predicate StartsWith(s: string, p: string) {
    |p| <= |s| && s[..|p|] == p
  }

  predicate EndsWith(s: string, p: string) {
    |p| <= |s| && s[|s| - |p|..] == p
  }

  lemma StartsWithExtend(a: string, b: string, p: string)
    ensures StartsWith(a, p) ==> StartsWith(a + b, p)
  {
    if |p| <= |a| {
      assert (a + b)[..|p|] == a[..|p|];
    }
  }

  lemma EndsWithExtend(a: string, b: string, p: string)
    ensures EndsWith(b, p) ==> EndsWith(a + b, p)
  {
    if |p| <= |b| {
      assert (a + b)[|a + b| - |p|..] == b[|b| - |p|..];
    }
  }

  /** A prefix of a prefix is a prefix. */
  lemma StartsWithPrefix(s: string, a: string, b: string)
    ensures StartsWith(s, a + b) ==> StartsWith(s, a)
  {
    if StartsWith(s, a + b) {
      assert s[..|a|] == (a + b)[..|a|] == a;
    }
  }

  /** `a` starts `a + b`, and `b` is what follows it. */
  lemma StartsWithConcat(a: string, b: string)
    ensures StartsWith(a + b, a) && (a + b)[|a|..] == b
  {
    assert (a + b)[..|a|] == a;
  }

  /** The middle of `a + m + b` lies between the prefix `a` and the suffix
      `b`. */
  lemma Between(a: string, m: string, b: string)
    ensures StartsWith(a + m + b, a) && EndsWith(a + m + b, b)
    ensures (a + m + b)[|a|..|a + m + b| - |b|] == m
  {
    var s := a + m + b;
    assert s[..|a|] == a;
    assert s[|s| - |b|..] == b;
    assert s[|a|..|s| - |b|] == m;
  }

  /** `p` occurs somewhere in `s`; the empty string occurs in every string,
      as it does in Python. */
  predicate Contains(s: string, p: string)
    ensures |p| == 0 ==> Contains(s, p)
    ensures Contains(s, p) ==> |p| <= |s|
    decreases |s|
  {
    StartsWith(s, p) || (|s| > 0 && Contains(s[1..], p))
  }

  /** A prefix no longer than `a` is a prefix of `a + b` exactly when it is
      one of `a`. */
  lemma StartsWithWithin(a: string, b: string, p: string)
    requires |p| <= |a|
    ensures StartsWith(a + b, p) <==> StartsWith(a, p)
  {
    assert (a + b)[..|p|] == a[..|p|];
  }

  /** Past a position where `p` does not start, look further on. */
  lemma ContainsStep(s: string, p: string)
    requires |s| > 0 && !StartsWith(s, p)
    ensures Contains(s, p) == Contains(s[1..], p)
  {
  }

  /** `p` occurs in `s` at position `i`. */
  ghost predicate OccursAt(s: string, p: string, i: int) {
    0 <= i && i + |p| <= |s| && s[i..i + |p|] == p
  }

  /** The scan `Contains` agrees with the positional definition. */
  lemma {:induction false} ContainsIff(s: string, p: string)
    ensures Contains(s, p) <==> exists i :: OccursAt(s, p, i)
    decreases |s|
  {
    if |s| > 0 {
      ContainsIff(s[1..], p);
    }
    if StartsWith(s, p) {
      assert OccursAt(s, p, 0);
    } else if Contains(s, p) {
      var j :| OccursAt(s[1..], p, j);
      assert s[1..][j..j + |p|] == s[j + 1..j + 1 + |p|];
      assert OccursAt(s, p, j + 1);
    }
    forall i | OccursAt(s, p, i)
      ensures Contains(s, p)
    {
      if i > 0 {
        assert s[1..][i - 1..i - 1 + |p|] == s[i..i + |p|];
        assert OccursAt(s[1..], p, i - 1);
      } else {
        assert s[..|p|] == s[i..i + |p|];
      }
    }
  }

  /** The middle of a concatenation occurs in it. */
  lemma ContainsMiddle(a: string, m: string, b: string)
    ensures Contains(a + m + b, m)
  {
    assert (a + m + b)[|a|..|a| + |m|] == m;
    assert OccursAt(a + m + b, m, |a|);
    ContainsIff(a + m + b, m);
  }

  /** Occurrence is transitive: a substring of a substring is a substring. */
  lemma ContainsTransitive(s: string, p: string, q: string)
    requires Contains(s, p) && Contains(p, q)
    ensures Contains(s, q)
  {
    ContainsIff(s, p);
    ContainsIff(p, q);
    var i :| OccursAt(s, p, i);
    var j :| OccursAt(p, q, j);
    assert forall k :: 0 <= k < |q| ==> q[k] == p[j + k] == s[i + j + k];
    assert s[i + j..i + j + |q|] == q;
    assert OccursAt(s, q, i + j);
    ContainsIff(s, q);
  }

  /** Substrings of lower-case text are lower-case. */
  lemma ContainsLower(s: string, p: string)
    requires IsLower(s) && Contains(s, p)
    ensures IsLower(p)
  {
    ContainsIff(s, p);
    var i :| OccursAt(s, p, i);
    LowerSlice(s, i, i + |p|);
  }

  /** A one-character pattern occurs exactly when the character does. */
  lemma {:induction false} ContainsChar(s: string, c: char)
    ensures Contains(s, [c]) <==> c in s
    decreases |s|
  {
    if |s| > 0 {
      ContainsChar(s[1..], c);
      assert s == [s[0]] + s[1..];
    }
  }

  /* ---------------------------------------------------------------------
     Partition, split and join
     --------------------------------------------------------------------- */

  /** The result of cutting a string at the first occurrence of a separator. */
  datatype Cut = Cut(head: string, found: bool, tail: string)

  /** The cut `split` makes at each step, as Python's `s.partition(sep)`
      would make it: the text before the first occurrence of
      `sep` and the text after it, or the whole string when there is none. */
  function Partition(s: string, sep: string): (r: Cut)
    requires |sep| > 0
    ensures r.found ==> s == r.head + sep + r.tail
    ensures !r.found ==> r.head == s && r.tail == []
    decreases |s|
  {
    if StartsWith(s, sep) then
      assert s == [] + sep + s[|sep|..];
      Cut([], true, s[|sep|..])
    else if |s| == 0 then
      Cut([], false, [])
    else
      var rest := Partition(s[1..], sep);
      Cut([s[0]] + rest.head, rest.found, rest.tail)
  }

  /** `Partition` cuts at the first occurrence: the head never contains
      the separator. */
  lemma {:induction false} PartitionHeadAvoids(s: string, sep: string)
    requires |sep| > 0
    ensures !Contains(Partition(s, sep).head, sep)
    decreases |s|
  {
    if !StartsWith(s, sep) && |s| > 0 {
      var c := Partition(s, sep);
      var rest := Partition(s[1..], sep);
      assert c.head == [s[0]] + rest.head;
      assert !StartsWith(c.head, sep) by {
        StartsWithExtend(c.head, if c.found then sep + c.tail else [], sep);
      }
      assert c.head[1..] == rest.head;
      ContainsStep(c.head, sep);
      PartitionHeadAvoids(s[1..], sep);
    }
  }

  /** The separator is found exactly when it occurs. */
  lemma PartitionFound(s: string, sep: string)
    requires |sep| > 0
    ensures Partition(s, sep).found <==> Contains(s, sep)
  {
    var c := Partition(s, sep);
    PartitionHeadAvoids(s, sep);
    if c.found {
      ContainsMiddle(c.head, sep, c.tail);
    }
  }

  /** Python's `s.split(sep)`: `n` non-overlapping occurrences of `sep`,
      taken left to right, give `n + 1` pieces, and `""` gives `[""]`. */
  function SplitOn(s: string, sep: string): (r: seq<string>)
    requires |sep| > 0
    ensures |r| >= 1
    ensures forall i :: 0 <= i < |r| ==> !Contains(r[i], sep)
    decreases |s|
  {
    var c := Partition(s, sep);
    PartitionHeadAvoids(s, sep);
    if c.found then [c.head] + SplitOn(c.tail, sep) else [s]
  }

  /** One step of `SplitOn`: the piece before the first cut, then the
      split of the rest. */
  lemma SplitOnUnfold(s: string, sep: string)
    requires |sep| > 0
    ensures Partition(s, sep).found ==>
      && s == Partition(s, sep).head + sep + Partition(s, sep).tail
      && SplitOn(s, sep) == [Partition(s, sep).head] + SplitOn(Partition(s, sep).tail, sep)
    ensures !Partition(s, sep).found ==> SplitOn(s, sep) == [s]
  {
  }

  /** Python's `sep.join(parts)`. */
  function Join(parts: seq<string>, sep: string): (r: string)
    ensures |parts| == 0 ==> r == []
    ensures |parts| > 0 ==> StartsWith(r, parts[0]) && EndsWith(r, parts[|parts| - 1])
    decreases |parts|
  {
    if |parts| == 0 then []
    else if |parts| == 1 then
      assert parts[0][..|parts[0]|] == parts[0];
      parts[0]
    else
      var rest := Join(parts[1..], sep);
      var r := parts[0] + sep + rest;
      assert r[..|parts[0]|] == parts[0];
      assert r[|r| - |rest|..] == rest;
      assert rest[|rest| - |parts[|parts| - 1]|..] == r[|r| - |parts[|parts| - 1]|..];
      r
  }

  /** Joining the pieces of a split gives back the original text. */
  lemma {:induction false} JoinSplitOn(s: string, sep: string)
    requires |sep| > 0
    ensures Join(SplitOn(s, sep), sep) == s
    decreases |s|
  {
    var c := Partition(s, sep);
    if c.found {
      JoinSplitOn(c.tail, sep);
      var rest := SplitOn(c.tail, sep);
      assert SplitOn(s, sep) == [c.head] + rest;
      assert ([c.head] + rest)[1..] == rest;
    }
  }

  /** Cutting text whose first part avoids the separator's first character
      stops right after that part. */
  lemma {:induction false} PartitionAfter(a: string, sep: string, t: string)
    requires |sep| > 0 && sep[0] !in a
    ensures Partition(a + sep + t, sep) == Cut(a, true, t)
    decreases |a|
  {
    var s := a + sep + t;
    if |a| == 0 {
      assert s == sep + t;
      assert StartsWith(s, sep);
      assert s[|sep|..] == t;
    } else {
      assert s[0] == a[0];
      assert !StartsWith(s, sep);
      assert s[1..] == a[1..] + sep + t;
      PartitionAfter(a[1..], sep, t);
      assert [a[0]] + a[1..] == a;
    }
  }

  /** Text that avoids the separator's first character is not cut. */
  lemma PartitionNone(a: string, sep: string)
    requires |sep| > 0 && sep[0] !in a
    ensures Partition(a, sep) == Cut(a, false, [])
  {
    if Contains(a, sep) {
      ContainsIff(a, sep);
      var i :| OccursAt(a, sep, i);
    }
  }

  /** Splitting the join of pieces that avoid the separator's first
      character gives back the pieces. */
  lemma {:induction false} SplitOnJoin(parts: seq<string>, sep: string)
    requires |sep| > 0 && |parts| >= 1
    requires forall i :: 0 <= i < |parts| ==> sep[0] !in parts[i]
    ensures SplitOn(Join(parts, sep), sep) == parts
    decreases |parts|
  {
    if |parts| == 1 {
      PartitionNone(parts[0], sep);
    } else {
      var rest := Join(parts[1..], sep);
      assert Join(parts, sep) == parts[0] + sep + rest;
      PartitionAfter(parts[0], sep, rest);
      assert SplitOn(Join(parts, sep), sep) == [parts[0]] + SplitOn(rest, sep);
      assert forall i :: 0 <= i < |parts| - 1 ==> parts[1..][i] == parts[i + 1];
      SplitOnJoin(parts[1..], sep);
      assert [parts[0]] + parts[1..] == parts;
    }
  }

  /** A separator character that occurs nowhere in the parts occurs nowhere
      in their join either, given it is not in the separator. */
  lemma {:induction false} JoinAvoids(parts: seq<string>, sep: string, c: char)
    requires c !in sep
    requires forall i :: 0 <= i < |parts| ==> c !in parts[i]
    ensures c !in Join(parts, sep)
    decreases |parts|
  {
    if |parts| > 1 {
      JoinAvoids(parts[1..], sep, c);
    }
  }

  /** Every piece of a split occurs in the text that was split. */
  lemma {:induction false} SplitOnPieceOccurs(s: string, sep: string, i: int)
    requires |sep| > 0 && 0 <= i < |SplitOn(s, sep)|
    ensures Contains(s, SplitOn(s, sep)[i])
    decreases |s|
  {
    var c := Partition(s, sep);
    var piece := SplitOn(s, sep)[i];
    if !c.found {
      assert piece == s by { SplitOnUnfold(s, sep); }
      assert StartsWith(s, s);
    } else if i == 0 {
      assert piece == c.head by { SplitOnUnfold(s, sep); }
      CutHeadOccurs(s, sep);
    } else {
      assert 0 <= i - 1 < |SplitOn(c.tail, sep)| && piece == SplitOn(c.tail, sep)[i - 1] by {
        SplitOnUnfold(s, sep);
      }
      assert |c.tail| < |s| by { SplitOnUnfold(s, sep); }
      SplitOnPieceOccurs(c.tail, sep, i - 1);
      CutTailOccurs(s, sep);
      ContainsTransitive(s, c.tail, piece);
    }
  }

  /** The text before a cut occurs in the text that was cut. */
  lemma CutHeadOccurs(s: string, sep: string)
    requires |sep| > 0
    ensures Contains(s, Partition(s, sep).head)
  {
    var c := Partition(s, sep);
    assert StartsWith(c.head, c.head);
    if c.found {
      StartsWithExtend(c.head, sep + c.tail, c.head);
      assert s == c.head + (sep + c.tail);
    }
  }

  /** The text after a cut occurs in the text that was cut. */
  lemma CutTailOccurs(s: string, sep: string)
    requires |sep| > 0
    ensures Contains(s, Partition(s, sep).tail)
  {
    var c := Partition(s, sep);
    if c.found {
      ContainsMiddle(c.head + sep, c.tail, []);
      assert c.head + sep + c.tail + [] == s;
    } else {
      assert StartsWith(s, []);
    }
  }

  /** Number of occurrences of a character. */
  function Count(s: string, c: char): nat
    decreases |s|
  {
    if |s| == 0 then 0 else (if s[0] == c then 1 else 0) + Count(s[1..], c)
  }

  lemma {:induction false} CountAppend(a: string, b: string, c: char)
    ensures Count(a + b, c) == Count(a, c) + Count(b, c)
    decreases |a|
  {
    if |a| > 0 {
      assert (a + b)[1..] == a[1..] + b;
      CountAppend(a[1..], b, c);
    } else {
      assert a + b == b;
    }
  }

  lemma {:induction false} CountAbsent(s: string, c: char)
    requires c !in s
    ensures Count(s, c) == 0
    decreases |s|
  {
    if |s| > 0 {
      CountAbsent(s[1..], c);
    }
  }

  /** Splitting on a single character yields one more piece than there are
      occurrences of that character. */
  lemma {:induction false} SplitOnCount(s: string, c: char)
    ensures |SplitOn(s, [c])| == Count(s, c) + 1
    decreases |s|
  {
    var cut := Partition(s, [c]);
    CutHeadCount(s, c);
    SplitOnUnfold(s, [c]);
    if cut.found {
      SplitOnCount(cut.tail, c);
      CutCount(s, c);
    }
  }

  /** The text before the first cut holds none of the separator character. */
  lemma CutHeadCount(s: string, c: char)
    ensures Count(Partition(s, [c]).head, c) == 0
  {
    var cut := Partition(s, [c]);
    PartitionHeadAvoids(s, [c]);
    ContainsChar(cut.head, c);
    CountAbsent(cut.head, c);
  }

  /** A cut removes exactly one separator character. */
  lemma CutCount(s: string, c: char)
    requires Partition(s, [c]).found
    ensures Count(s, c) == Count(Partition(s, [c]).head, c) + 1 + Count(Partition(s, [c]).tail, c)
  {
    var cut := Partition(s, [c]);
    assert s == cut.head + ([c] + cut.tail);
    CountAppend(cut.head, [c] + cut.tail, c);
    CountAppend([c], cut.tail, c);
  }

  /** Lower-casing neither creates nor removes line breaks. */
  lemma {:induction false} CountLower(s: string)
    ensures Count(Lower(s), '\n') == Count(s, '\n')
    decreases |s|
  {
    if |s| > 0 {
      assert Lower(s)[1..] == Lower(s[1..]);
      CountLower(s[1..]);
    }
  }

  /* ---------------------------------------------------------------------
     Whitespace stripping: Python's `s.strip()`
     --------------------------------------------------------------------- */

  /** The characters for which Python's `str.isspace` holds. */
  predicate IsSpace(c: char) {
    var n := c as int;
    || (0x09 <= n <= 0x0D) || (0x1C <= n <= 0x20)
    || n == 0x85 || n == 0xA0 || n == 0x1680
    || (0x2000 <= n <= 0x200A) || n == 0x2028 || n == 0x2029
    || n == 0x202F || n == 0x205F || n == 0x3000
  }

  ghost predicate AllSpace(s: string) {
    forall i :: 0 <= i < |s| ==> IsSpace(s[i])
  }

  /** Neither starts nor ends with whitespace. */
  ghost predicate Trimmed(s: string) {
    |s| == 0 || (!IsSpace(s[0]) && !IsSpace(s[|s| - 1]))
  }

  /** Python's `s.lstrip()`. */
  function StripLeading(s: string): (r: string)
    ensures |r| <= |s| && r == s[|s| - |r|..]
    ensures AllSpace(s[..|s| - |r|])
    ensures |r| == 0 || !IsSpace(r[0])
    decreases |s|
  {
    if |s| > 0 && IsSpace(s[0]) then
      var r := StripLeading(s[1..]);
      var k := |s| - |r|;
      assert s[1..][k - 1..] == s[k..];
      assert AllSpace(s[..k]) by {
        forall i | 0 <= i < k
          ensures IsSpace(s[..k][i])
        {
          if i > 0 {
            assert s[..k][i] == s[1..][..k - 1][i - 1];
          }
        }
      }
      r
    else
      s
  }

  /** Python's `s.rstrip()`. */
  function StripTrailing(s: string): (r: string)
    ensures |r| <= |s| && r == s[..|r|]
    ensures AllSpace(s[|r|..])
    ensures |r| == 0 || !IsSpace(r[|r| - 1])
    decreases |s|
  {
    if |s| > 0 && IsSpace(s[|s| - 1]) then
      var r := StripTrailing(s[..|s| - 1]);
      assert s[..|s| - 1][..|r|] == s[..|r|];
      assert AllSpace(s[|r|..]) by {
        forall i | 0 <= i < |s| - |r|
          ensures IsSpace(s[|r|..][i])
        {
          if i < |s| - 1 - |r| {
            assert s[|r|..][i] == s[..|s| - 1][|r|..][i];
          }
        }
      }
      r
    else
      s
  }

  /** `r` is `s` with the whitespace run `s[..k]` before it and only
      whitespace after it. */
  ghost predicate PaddedAt(s: string, k: int, r: string) {
    && 0 <= k && k + |r| <= |s|
    && s[k..k + |r|] == r
    && AllSpace(s[..k]) && AllSpace(s[k + |r|..])
  }

  /** Python's `s.strip()`: the text with leading and trailing whitespace
      removed and nothing else changed. */
  function Strip(s: string): (r: string)
    ensures Trimmed(r)
    ensures exists k :: PaddedAt(s, k, r)
  {
    var left := StripLeading(s);
    var r := StripTrailing(left);
    PaddedAround(s, left, r);
    assert |r| == 0 || r[0] == left[0];
    r
  }

  /** Whitespace cut from the front of `s`, leaving `left`, and then from
      the back of `left`, leaving `r`, pads `r` inside `s`. */
  lemma PaddedAround(s: string, left: string, r: string)
    requires |left| <= |s| && left == s[|s| - |left|..] && AllSpace(s[..|s| - |left|])
    requires |r| <= |left| && r == left[..|r|] && AllSpace(left[|r|..])
    ensures PaddedAt(s, |s| - |left|, r)
  {
    var k := |s| - |left|;
    assert s[k..k + |r|] == r;
    assert s[k + |r|..] == left[|r|..];
  }

  lemma {:induction false} StripLeadingSpaces(a: string, t: string)
    requires AllSpace(a) && (|t| == 0 || !IsSpace(t[0]))
    ensures StripLeading(a + t) == t
    decreases |a|
  {
    if |a| > 0 {
      assert (a + t)[1..] == a[1..] + t;
      StripLeadingSpaces(a[1..], t);
    } else {
      assert a + t == t;
    }
  }

  lemma {:induction false} StripTrailingSpaces(t: string, b: string)
    requires AllSpace(b) && (|t| == 0 || !IsSpace(t[|t| - 1]))
    ensures StripTrailing(t + b) == t
    decreases |b|
  {
    if |b| > 0 {
      assert (t + b)[..|t + b| - 1] == t + b[..|b| - 1];
      StripTrailingSpaces(t, b[..|b| - 1]);
    } else {
      assert t + b == t;
    }
  }

  /** `Strip` is determined by its contract: whatever trimmed text is
      surrounded by whitespace only is what `Strip` returns. */
  lemma StripUnique(a: string, m: string, b: string)
    requires AllSpace(a) && AllSpace(b) && Trimmed(m)
    ensures Strip(a + m + b) == m
  {
    if |m| == 0 {
      assert a + m + b == (a + b) + [];
      StripLeadingSpaces(a + b, []);
    } else {
      assert a + m + b == a + (m + b);
      StripLeadingSpaces(a, m + b);
      StripTrailingSpaces(m, b);
    }
  }

  /** Text with no whitespace around it is left alone. */
  lemma StripTrimmed(m: string)
    requires Trimmed(m)
    ensures Strip(m) == m
  {
    StripUnique([], m, []);
    assert [] + m + [] == m;
  }

  lemma StripIdempotent(s: string)
    ensures Strip(Strip(s)) == Strip(s)
  {
    StripTrimmed(Strip(s));
  }

  /** Stripping lower-case text leaves lower-case text. */
  lemma StripLower(s: string)
    requires IsLower(s)
    ensures IsLower(Strip(s))
  {
    var k :| PaddedAt(s, k, Strip(s));
    LowerSlice(s, k, k + |Strip(s)|);
  }
}
