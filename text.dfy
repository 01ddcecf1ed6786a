/**
 * The JavaScript string builtins the COBie core relies on, over an ASCII view of
 * characters: `trim`, `toUpperCase`, `toLowerCase`, `split`, `includes`, the
 * insertion-ordered `new Set(...)` of a list, and the decimal rendering of a
 * number inside a template literal.
 */
module Text {

  /** The ASCII characters `String.prototype.trim` strips. */
  predicate IsSpace(c: char) {
    c == ' ' || c == '\t' || c == '\n' || c == '\r' || c == '\U{B}' || c == '\U{C}'
  }

  /** The end of the run of white space that starts at `i`. */
  function SkipLeading(s: string, i: nat): (j: nat)
    requires i <= |s|
    ensures i <= j <= |s|
    decreases |s| - i
  {
    if i < |s| && IsSpace(s[i]) then SkipLeading(s, i + 1) else i
  }

  lemma {:induction false} SkipLeadingSpec(s: string, i: nat)
    requires i <= |s|
    ensures var j := SkipLeading(s, i);
      && (j == |s| || !IsSpace(s[j]))
      && forall k :: i <= k < j ==> IsSpace(s[k])
    decreases |s| - i
  {
    if i < |s| && IsSpace(s[i]) {
      SkipLeadingSpec(s, i + 1);
    }
  }

  /** The start of the run of white space that ends at `j`, not going below `lo`. */
  function SkipTrailing(s: string, lo: nat, j: nat): (i: nat)
    requires lo <= j <= |s|
    ensures lo <= i <= j
    decreases j
  {
    if j > lo && IsSpace(s[j - 1]) then SkipTrailing(s, lo, j - 1) else j
  }

  lemma {:induction false} SkipTrailingSpec(s: string, lo: nat, j: nat)
    requires lo <= j <= |s|
    ensures var i := SkipTrailing(s, lo, j);
      && (i == lo || !IsSpace(s[i - 1]))
      && forall k :: i <= k < j ==> IsSpace(s[k])
    decreases j
  {
    if j > lo && IsSpace(s[j - 1]) {
      SkipTrailingSpec(s, lo, j - 1);
    }
  }

  /** The number of leading white-space characters `s.trim()` removes. */
  function TrimLead(s: string): nat
    ensures TrimLead(s) <= |s|
  {
    SkipLeading(s, 0)
  }

  /** `s.trim()` removes exactly the leading and trailing white space: what is
      left is the infix of `s` after `TrimLead(s)` characters, it neither starts
      nor ends with white space, and everything cut off on either side is white
      space. */
  function Trim(s: string): (r: string)
    ensures TrimLead(s) + |r| <= |s| && r == s[TrimLead(s)..TrimLead(s) + |r|]
    ensures forall i :: 0 <= i < TrimLead(s) ==> IsSpace(s[i])
    ensures forall i :: TrimLead(s) + |r| <= i < |s| ==> IsSpace(s[i])
    ensures r == [] || (!IsSpace(r[0]) && !IsSpace(r[|r| - 1]))
  {
    var a := TrimLead(s);
    var b := SkipTrailing(s, a, |s|);
    SkipLeadingSpec(s, 0);
    SkipTrailingSpec(s, a, |s|);
    s[a..b]
  }

  /** Trimming text that neither starts nor ends with white space changes nothing. */
  lemma TrimUnpadded(s: string)
    requires s == [] || (!IsSpace(s[0]) && !IsSpace(s[|s| - 1]))
    ensures Trim(s) == s
  {
    if s != [] {
      assert SkipLeading(s, 0) == 0;
      assert SkipTrailing(s, 0, |s|) == |s|;
    }
  }

  function UpperChar(c: char): char {
    if 'a' <= c <= 'z' then (c as int - 32) as char else c
  }

  function LowerChar(c: char): char {
    if 'A' <= c <= 'Z' then (c as int + 32) as char else c
  }

  /** `s.toUpperCase()` on ASCII letters. */
  function Upper(s: string): (r: string)
    ensures |r| == |s|
  {
    seq(|s|, i requires 0 <= i < |s| => UpperChar(s[i]))
  }

  /** `s.toLowerCase()` on ASCII letters. */
  function Lower(s: string): (r: string)
    ensures |r| == |s|
  {
    seq(|s|, i requires 0 <= i < |s| => LowerChar(s[i]))
  }

  /** The key under which the spatial builder files a space name:
      `s.trim().toUpperCase()`; it has no outer white space and no lower-case
      ASCII letter. */
  function Normalize(s: string): (r: string)
    ensures |r| <= |s|
    ensures r == [] || (!IsSpace(r[0]) && !IsSpace(r[|r| - 1]))
    ensures forall i :: 0 <= i < |r| ==> !('a' <= r[i] <= 'z')
  {
    var t := Trim(s);
    var u := Upper(t);
    assert |u| > 0 ==> u[0] == UpperChar(t[0]) && u[|u| - 1] == UpperChar(t[|t| - 1]);
    u
  }

  /** A normalised key is its own normalisation: a trimmed, upper-cased name
      neither gains nor loses anything when normalised again. */
  lemma NormalizeIdempotent(s: string)
    ensures Normalize(Normalize(s)) == Normalize(s)
  {
    var u := Normalize(s);
    TrimUnpadded(u);
    assert forall i :: 0 <= i < |u| ==> UpperChar(u[i]) == u[i];
    assert Upper(u) == u;
  }

  /** `s.split(sep)`: the pieces between occurrences of `sep`; there is always
      at least one piece, and the empty string splits into `[""]`. */
  function Split(s: string, sep: char): (parts: seq<string>)
    ensures |parts| >= 1
    decreases |s|
  {
    if |s| == 0 then [""]
    else
      var rest := Split(s[1..], sep);
      if s[0] == sep then [""] + rest else [[s[0]] + rest[0]] + rest[1..]
  }

  /** The parts joined with `sep` between them. */
  function Join(parts: seq<string>, sep: char): string
    requires |parts| >= 1
    decreases |parts|
  {
    if |parts| == 1 then parts[0] else parts[0] + [sep] + Join(parts[1..], sep)
  }

  /** Splitting loses nothing: joining the pieces back gives the original, and
      no piece contains the separator. */
  lemma {:induction false} SplitJoin(s: string, sep: char)
    ensures Join(Split(s, sep), sep) == s
    ensures forall k :: 0 <= k < |Split(s, sep)| ==> sep !in Split(s, sep)[k]
    decreases |s|
  {
    if |s| > 0 {
      SplitJoin(s[1..], sep);
      var rest := Split(s[1..], sep);
      if s[0] == sep {
        assert Split(s, sep) == [""] + rest;
        assert ([""] + rest)[1..] == rest;
      } else {
        var parts := Split(s, sep);
        assert parts == [[s[0]] + rest[0]] + rest[1..];
        if |rest| == 1 {
          assert Join(parts, sep) == [s[0]] + rest[0];
        } else {
          assert parts[1..] == rest[1..];
          assert Join(rest, sep) == rest[0] + [sep] + Join(rest[1..], sep);
        }
        assert s == [s[0]] + s[1..];
        forall k | 0 <= k < |parts| ensures sep !in parts[k] {
          if k > 0 { assert parts[k] == rest[k]; }
        }
      }
    }
  }

  /** Splitting a string that starts with a character other than the
      separator: the character joins the first piece. */
  lemma SplitCons(c: char, s: string, sep: char)
    requires c != sep
    ensures Split([c] + s, sep) == [[c] + Split(s, sep)[0]] + Split(s, sep)[1..]
  {
    assert ([c] + s)[1..] == s;
  }

  /** Splitting a string that starts with the separator: an empty first
      piece. */
  lemma SplitSep(s: string, sep: char)
    ensures Split([sep] + s, sep) == [""] + Split(s, sep)
  {
    assert ([sep] + s)[1..] == s;
  }

  /** Moving the first character of the first piece out of a join. */
  lemma JoinHead(parts: seq<string>, sep: char)
    requires |parts| >= 1 && |parts[0]| > 0
    ensures Join(parts, sep) == [parts[0][0]] + Join([parts[0][1..]] + parts[1..], sep)
  {
    var p, tail := parts[0], [parts[0][1..]] + parts[1..];
    assert tail[1..] == parts[1..];
    if |parts| > 1 {
      assert Join(tail, sep) == p[1..] + [sep] + Join(parts[1..], sep);
    }
    assert [p[0]] + p[1..] == p;
  }

  /** Pieces free of the separator stay free of it when the first piece
      loses its first character, which is not the separator. */
  lemma SepFreeTail(parts: seq<string>, sep: char)
    requires |parts| >= 1 && |parts[0]| > 0
    requires forall k :: 0 <= k < |parts| ==> sep !in parts[k]
    ensures parts[0][0] != sep
    ensures var tail := [parts[0][1..]] + parts[1..];
      forall k :: 0 <= k < |tail| ==> sep !in tail[k]
  {
    var p, tail := parts[0], [parts[0][1..]] + parts[1..];
    assert p[0] in p;
    forall k | 0 <= k < |tail| ensures sep !in tail[k] {
      if k == 0 { assert forall c :: c in p[1..] ==> c in p; } else { assert tail[k] == parts[k]; }
    }
  }

  /** And the other direction: pieces free of the separator are recovered by
      splitting their join. */
  lemma {:induction false} JoinSplit(parts: seq<string>, sep: char)
    requires |parts| >= 1
    requires forall k :: 0 <= k < |parts| ==> sep !in parts[k]
    ensures Split(Join(parts, sep), sep) == parts
    decreases |parts|, |parts[0]|
  {
    var p := parts[0];
    if |p| > 0 {
      var tail := [p[1..]] + parts[1..];
      SepFreeTail(parts, sep);
      JoinSplit(tail, sep);
      JoinHead(parts, sep);
      SplitCons(p[0], Join(tail, sep), sep);
      assert tail[1..] == parts[1..];
      assert [p[0]] + p[1..] == p;
    } else if |parts| > 1 {
      JoinSplit(parts[1..], sep);
      assert Join(parts, sep) == [sep] + Join(parts[1..], sep);
      SplitSep(Join(parts[1..], sep), sep);
      assert [""] + parts[1..] == parts;
    }
  }

  predicate IsPrefix(p: string, s: string) {
    |p| <= |s| && s[..|p|] == p
  }

  /** `t` occurs somewhere in `s`. */
  predicate Contains(s: string, t: string)
    decreases |s|
  {
    IsPrefix(t, s) || (|s| > 0 && Contains(s[1..], t))
  }

  /** `t` occurs in `s` at position `i`. */
  predicate OccursAt(s: string, t: string, i: int) {
    0 <= i <= |s| - |t| && s[i..i + |t|] == t
  }

  lemma DropShift(s: string, i: nat, j: nat)
    requires 1 <= |s| && i <= j <= |s| - 1
    ensures s[1..][i..j] == s[i + 1..j + 1]
  {
    forall k | 0 <= k < j - i ensures s[1..][i..j][k] == s[i + 1..j + 1][k] {
      assert s[1..][i..j][k] == s[1..][i + k] == s[i + 1 + k];
    }
  }

  /** An occurrence anywhere is found by `includes`. */
  lemma {:induction false} OccursContains(s: string, t: string, i: nat)
    requires OccursAt(s, t, i)
    ensures Contains(s, t)
    decreases i
  {
    if i == 0 {
      assert IsPrefix(t, s);
    } else {
      DropShift(s, i - 1, i - 1 + |t|);
      OccursContains(s[1..], t, i - 1);
    }
  }

  /** What `includes` finds is an occurrence. */
  lemma {:induction false} ContainsOccurs(s: string, t: string) returns (i: nat)
    requires Contains(s, t)
    ensures OccursAt(s, t, i)
    decreases |s|
  {
    if IsPrefix(t, s) {
      i := 0;
    } else {
      var j := ContainsOccurs(s[1..], t);
      DropShift(s, j, j + |t|);
      i := j + 1;
    }
  }

  /** `includes` agrees with the textbook definition of a substring occurrence. */
  lemma ContainsIff(s: string, t: string)
    ensures Contains(s, t) <==> exists i :: OccursAt(s, t, i)
  {
    if Contains(s, t) {
      var i := ContainsOccurs(s, t);
    }
    if exists i :: OccursAt(s, t, i) {
      var i :| OccursAt(s, t, i);
      OccursContains(s, t, i);
    }
  }

  /** Each distinct element of `xs` once, in order of first occurrence. */
  function Dedup<T(==)>(xs: seq<T>): (r: seq<T>)
    ensures forall i :: 0 <= i < |r| ==> r[i] in xs
    ensures forall i :: 0 <= i < |xs| ==> xs[i] in r
    decreases |xs|
  {
    if |xs| == 0 then []
    else
      var d := Dedup(xs[..|xs| - 1]);
      if xs[|xs| - 1] in d then d else d + [xs[|xs| - 1]]
  }

  /** No element is kept twice. */
  lemma {:induction false} DedupDistinct<T>(xs: seq<T>, i: nat, j: nat)
    requires i < j < |Dedup(xs)|
    ensures Dedup(xs)[i] != Dedup(xs)[j]
    decreases |xs|
  {
    var n := |xs| - 1;
    var d := Dedup(xs[..n]);
    if j < |d| {
      DedupDistinct(xs[..n], i, j);
    } else {
      assert Dedup(xs)[i] in d;
    }
  }

  /** The index of the first occurrence of `x` in `xs`. */
  function FirstIndex<T(==)>(xs: seq<T>, x: T): (i: nat)
    requires x in xs
    ensures i < |xs| && xs[i] == x && x !in xs[..i]
  {
    if xs[0] == x then 0 else 1 + FirstIndex(xs[1..], x)
  }

  /** The set keeps insertion order: distinct elements appear in the order of
      their first occurrences. */
  lemma {:induction false} DedupOrder<T>(xs: seq<T>, i: nat, j: nat)
    requires i < j < |Dedup(xs)|
    ensures FirstIndex(xs, Dedup(xs)[i]) < FirstIndex(xs, Dedup(xs)[j])
    decreases |xs|
  {
    var n := |xs| - 1;
    var init := xs[..n];
    var d := Dedup(init);
    var a, b := Dedup(xs)[i], Dedup(xs)[j];
    if j < |d| {
      DedupOrder(init, i, j);
      FirstIndexPrefix(xs, n, a);
      FirstIndexPrefix(xs, n, b);
    } else {
      assert b == xs[n] && b !in init;
      assert a in init;
      FirstIndexPrefix(xs, n, a);
      assert FirstIndex(xs, b) == n by {
        assert xs[..n] == init;
      }
    }
  }

  lemma FirstIndexPrefix<T>(xs: seq<T>, n: nat, x: T)
    requires n <= |xs| && x in xs[..n]
    ensures FirstIndex(xs, x) == FirstIndex(xs[..n], x)
  {
    var k, k' := FirstIndex(xs, x), FirstIndex(xs[..n], x);
    assert xs[..n][k'] == xs[k'];
    assert xs[..n][..k'] == xs[..k'];
  }

  function DigitChar(d: nat): char
    requires d < 10
  {
    ('0' as int + d) as char
  }

  predicate IsDigit(c: char) {
    '0' <= c <= '9'
  }

  /** The decimal rendering `${n}` of a natural number. */
  function NatToString(n: nat): (s: string)
    ensures |s| >= 1 && forall i :: 0 <= i < |s| ==> IsDigit(s[i])
  {
    if n < 10 then [DigitChar(n)] else NatToString(n / 10) + [DigitChar(n % 10)]
  }

  function ParseNat(s: string): nat
    requires forall i :: 0 <= i < |s| ==> IsDigit(s[i])
  {
    if |s| == 0 then 0
    else
      assert IsDigit(s[|s| - 1]);
      ParseNat(s[..|s| - 1]) * 10 + (s[|s| - 1] as int - '0' as int)
  }

  /** The decimal rendering is read back as the same number, so distinct
      indices give distinct keys. */
  lemma {:induction false} ParseNatToString(n: nat)
    ensures ParseNat(NatToString(n)) == n
  {
    var s := NatToString(n);
    if n < 10 {
      assert s[..0] == [];
    } else {
      var init := NatToString(n / 10);
      ParseNatToString(n / 10);
      assert s[..|s| - 1] == init;
      assert s[|s| - 1] as int - '0' as int == n % 10;
      assert ParseNat(s) == ParseNat(init) * 10 + n % 10;
    }
  }
}
