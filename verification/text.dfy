/** The JavaScript string built-ins the core relies on: `trim`, ASCII case
    mapping, `startsWith`/`endsWith`/`includes`, `replace` of the first
    occurrence of a literal, global removal of one character and
    `lastIndexOf`. Strings are sequences of Unicode scalar values. */
module Text {

  /** JavaScript's WhiteSpace and LineTerminator code points, which `trim`
      removes from both ends. */
  predicate IsSpace(c: char) {
    || c == ' ' || c == '\t' || c == '\n' || c == '\r'
    || c == '\U{B}' || c == '\U{C}' || c == '\U{A0}' || c == '\U{1680}'
    || ('\U{2000}' <= c <= '\U{200A}')
    || c == '\U{2028}' || c == '\U{2029}' || c == '\U{202F}'
    || c == '\U{205F}' || c == '\U{3000}' || c == '\U{FEFF}'
  }

  predicate AllSpace(s: string) {
    forall i :: 0 <= i < |s| ==> IsSpace(s[i])
  }

  /** Neither end of `s` is whitespace. */
  predicate IsTrimmed(s: string) {
    s == [] || (!IsSpace(s[0]) && !IsSpace(s[|s| - 1]))
  }

  /** The number of whitespace characters `s` starts with. */
  function LeadingSpaces(s: string): (n: nat)
    ensures n <= |s|
    ensures forall i :: 0 <= i < n ==> IsSpace(s[i])
    ensures n < |s| ==> !IsSpace(s[n])
  {
    if s != [] && IsSpace(s[0]) then 1 + LeadingSpaces(s[1..]) else 0
  }

  function TrimStart(s: string): (r: string)
    ensures |r| <= |s| && r == s[|s| - |r|..]
    ensures AllSpace(s[..|s| - |r|])
    ensures r == [] || !IsSpace(r[0])
  {
    var n := LeadingSpaces(s);
    assert forall i :: 0 <= i < n ==> s[..n][i] == s[i];
    s[n..]
  }

  function TrimEnd(s: string): (r: string)
    ensures |r| <= |s| && r == s[..|r|]
    ensures AllSpace(s[|r|..])
    ensures r == [] || !IsSpace(r[|r| - 1])
  {
    if s != [] && IsSpace(s[|s| - 1]) then TrimEnd(s[..|s| - 1]) else s
  }

  /** `String.prototype.trim`: the longest slice of `s` whose ends are not
      whitespace, everything cut off being whitespace. */
  function Trim(s: string): (r: string)
    ensures IsTrimmed(r)
  {
    TrimEnd(TrimStart(s))
  }

  lemma TrimIsSlice(s: string)
    ensures exists i, j :: 0 <= i <= j <= |s| && Trim(s) == s[i..j] && AllSpace(s[..i]) && AllSpace(s[j..])
  {
    var a := TrimStart(s);
    var r := TrimEnd(a);
    var i := |s| - |a|;
    var j := i + |r|;
    assert r == a[..|r|] && a == s[i..];
    assert r == s[i..j];
    assert AllSpace(s[..i]);
    assert s[j..] == a[|r|..];
    assert AllSpace(s[j..]);
  }

  lemma TrimOfTrimmed(s: string)
    requires IsTrimmed(s)
    ensures Trim(s) == s
  {
  }

  /** One blank on each side of a trimmed, non-empty string is removed. */
  lemma TrimPadded(s: string)
    requires s != [] && IsTrimmed(s)
    ensures Trim([' '] + s + [' ']) == s
  {
    var p := [' '] + s + [' '];
    assert p[1..] == s + [' '];
    assert (s + [' '])[0] == s[0];
    assert LeadingSpaces(p) == 1;
    assert TrimStart(p) == s + [' '];
    assert (s + [' '])[..|s|] == s;
    assert TrimEnd(s + [' ']) == TrimEnd(s) == s;
  }

  function UpperChar(c: char): char {
    if 'a' <= c <= 'z' then (c as int - 32) as char else c
  }

  function LowerChar(c: char): char {
    if 'A' <= c <= 'Z' then (c as int + 32) as char else c
  }

  /** No ASCII lower-case letter occurs in `s`. */
  predicate IsUpper(s: string) {
    forall i :: 0 <= i < |s| ==> !('a' <= s[i] <= 'z')
  }

  /** `toUpperCase`, restricted to the ASCII letters. */
  function Upper(s: string): (r: string)
    ensures |r| == |s|
    ensures forall i :: 0 <= i < |s| ==> r[i] == UpperChar(s[i])
    ensures IsUpper(r)
  {
    if s == [] then [] else [UpperChar(s[0])] + Upper(s[1..])
  }

  /** `toLowerCase`, restricted to the ASCII letters. */
  function Lower(s: string): (r: string)
    ensures |r| == |s|
    ensures forall i :: 0 <= i < |s| ==> r[i] == LowerChar(s[i])
  {
    if s == [] then [] else [LowerChar(s[0])] + Lower(s[1..])
  }

  lemma UpperOfUpper(s: string)
    requires IsUpper(s)
    ensures Upper(s) == s
  {
  }

  /** Case mapping keeps whitespace where it is, so it commutes with `trim`
      and keeps a trimmed string trimmed. */
  lemma UpperKeepsTrimmed(s: string)
    requires IsTrimmed(s)
    ensures IsTrimmed(Upper(s))
  {
  }

  predicate StartsWith(s: string, prefix: string) {
    |prefix| <= |s| && s[..|prefix|] == prefix
  }

  predicate EndsWith(s: string, suffix: string) {
    |suffix| <= |s| && s[|s| - |suffix|..] == suffix
  }

  /** `pat` occurs in `s` starting at index `k`. */
  predicate MatchAt(s: string, pat: string, k: int) {
    0 <= k && k + |pat| <= |s| && s[k..k + |pat|] == pat
  }

  function IndexFrom(s: string, pat: string, from: nat): (r: int)
    requires from <= |s| + 1
    ensures r == -1 || (from <= r && MatchAt(s, pat, r))
    ensures forall k :: from <= k && (r == -1 || k < r) ==> !MatchAt(s, pat, k)
    decreases |s| + 1 - from
  {
    if from + |pat| > |s| then -1
    else if s[from..from + |pat|] == pat then from
    else IndexFrom(s, pat, from + 1)
  }

  /** `indexOf`: the first index at which `pat` occurs, or -1. */
  function IndexOf(s: string, pat: string): (r: int)
    ensures r == -1 || MatchAt(s, pat, r)
    ensures forall k :: 0 <= k && (r == -1 || k < r) ==> !MatchAt(s, pat, k)
  {
    IndexFrom(s, pat, 0)
  }

  /** `includes`. */
  predicate Contains(s: string, pat: string) {
    IndexOf(s, pat) >= 0
  }

  lemma EndsWithContains(s: string, suffix: string)
    requires EndsWith(s, suffix)
    ensures Contains(s, suffix)
  {
    assert MatchAt(s, suffix, |s| - |suffix|);
  }

  /** A pattern whose first character does not occur in `s` does not occur
      in `s`. */
  lemma AbsentHead(s: string, pat: string)
    requires |pat| > 0 && pat[0] !in s
    ensures !Contains(s, pat)
  {
    var r := IndexOf(s, pat);
    if r >= 0 {
      assert false;
    }
  }

  /** `s.replace(pat, "")` for a literal `pat`: only the first occurrence is
      removed. */
  function RemoveFirst(s: string, pat: string): (r: string)
    ensures Contains(s, pat) ==> |r| == |s| - |pat|
    ensures !Contains(s, pat) ==> r == s
    ensures Contains(s, pat) ==> exists k :: MatchAt(s, pat, k) && (forall j :: 0 <= j < k ==> !MatchAt(s, pat, j))
                                            && r == s[..k] + s[k + |pat|..]
  {
    var k := IndexOf(s, pat);
    if k < 0 then s else s[..k] + s[k + |pat|..]
  }

  /** `.SA` cannot overlap itself, so appending it to a string that does not
      contain it and then removing its first occurrence gives the string
      back. */
  lemma RemoveAppendedSuffix(s: string)
    requires !Contains(s, ".SA")
    ensures RemoveFirst(s + ".SA", ".SA") == s
  {
    var t := s + ".SA";
    assert MatchAt(t, ".SA", |s|);
    forall k | 0 <= k < |s|
      ensures !MatchAt(t, ".SA", k)
    {
      if k + 3 <= |s| {
        assert t[k..k + 3] == s[k..k + 3];
        assert !MatchAt(s, ".SA", k);
      } else if k == |s| - 1 {
        assert t[k..k + 3][1] == t[k + 1] == '.';
      } else {
        assert t[k..k + 3][2] == t[k + 2] == '.';
      }
    }
    assert IndexOf(t, ".SA") == |s|;
  }

  /** `s.replace(/c/g, "")`. */
  function RemoveAll(s: string, c: char): (r: string)
    ensures c !in r
    ensures forall x :: x != c ==> multiset(r)[x] == multiset(s)[x]
  {
    if s == [] then []
    else if s[0] == c then (assert s == [s[0]] + s[1..]; RemoveAll(s[1..], c))
    else (assert s == [s[0]] + s[1..]; [s[0]] + RemoveAll(s[1..], c))
  }

  /** Removal works character by character: a removed character leaves
      nothing and any other character stays, in place. */
  lemma RemoveAllOne(x: char, c: char)
    ensures RemoveAll([x], c) == (if x == c then [] else [x])
  {
    assert [x][1..] == [];
  }

  /** Removal distributes over concatenation, so the surviving characters
      keep their order. */
  lemma {:induction false} RemoveAllAppend(a: string, b: string, c: char)
    ensures RemoveAll(a + b, c) == RemoveAll(a, c) + RemoveAll(b, c)
  {
    if a == [] {
      assert a + b == b;
    } else {
      assert (a + b)[0] == a[0] && (a + b)[1..] == a[1..] + b;
      RemoveAllAppend(a[1..], b, c);
    }
  }

  lemma RemoveAllAbsent(s: string, c: char)
    requires c !in s
    ensures RemoveAll(s, c) == s
  {
  }

  /** The first index holding `c`, or -1. */
  function FirstIndex(s: string, c: char): (r: int)
    ensures -1 <= r < |s|
    ensures r >= 0 ==> s[r] == c && c !in s[..r]
    ensures r == -1 <==> c !in s
  {
    if s == [] then -1
    else if s[0] == c then 0
    else
      var k := FirstIndex(s[1..], c);
      if k < 0 then -1
      else
        assert s[..k + 1] == [s[0]] + s[1..][..k];
        k + 1
  }

  /** `s.replace(from, to)` for a one-character literal `from`. */
  function ReplaceFirst(s: string, from: char, to: char): (r: string)
    ensures |r| == |s|
    ensures from !in s ==> r == s
    ensures from in s ==> exists k :: 0 <= k < |s| && r == s[k := to] && s[k] == from && from !in s[..k]
  {
    var k := FirstIndex(s, from);
    if k < 0 then s else s[k := to]
  }

  /** The first `from` is the one after a prefix without `from`, and only
      it is replaced. */
  lemma ReplaceFirstAfter(x: string, y: string, from: char, to: char)
    requires from !in x
    ensures ReplaceFirst(x + [from] + y, from, to) == x + [to] + y
  {
    var s := x + [from] + y;
    var k := FirstIndex(s, from);
    assert s[|x|] == from;
    if k < |x| {
      assert false;
    } else if k > |x| {
      assert false;
    }
    assert s[k := to] == x + [to] + y;
  }

  /** Replacing the first `from` trades one `from` for one `to`. */
  lemma ReplaceFirstCounts(s: string, from: char, to: char)
    requires from in s
    ensures multiset(ReplaceFirst(s, from, to)) == multiset(s) - multiset{from} + multiset{to}
  {
    var k :| 0 <= k < |s| && ReplaceFirst(s, from, to) == s[k := to] && s[k] == from && from !in s[..k];
  }

  /** `lastIndexOf` of one character: the last index holding `c`, or -1. */
  function LastIndexOf(s: string, c: char): (r: int)
    ensures -1 <= r < |s|
    ensures r >= 0 ==> s[r] == c
    ensures forall k :: r < k < |s| ==> s[k] != c
    ensures r == -1 <==> c !in s
  {
    if s == [] then -1
    else if s[|s| - 1] == c then |s| - 1
    else
      assert s == s[..|s| - 1] + [s[|s| - 1]];
      LastIndexOf(s[..|s| - 1], c)
  }
}
