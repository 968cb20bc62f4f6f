/** The parts of Go's `strings` package that the version helpers rely on:
    `Index`, `Contains` and `Split` (with a non-empty separator), and `Join`
    as the inverse that pins `Split` down. Strings are sequences of
    characters; Go works on bytes, which makes no difference for the ASCII
    separators and needles used here. */
module GoStrings {

  /** `sub` occurs in `s` starting at position `i`. */
  predicate OccursAt(s: string, sub: string, i: int)
  {
    0 <= i && i + |sub| <= |s| && s[i..i + |sub|] == sub
  }

  lemma OccursAtTail(s: string, sub: string, i: int)
    requires |s| > 0 && i >= 0
    ensures OccursAt(s[1..], sub, i) <==> OccursAt(s, sub, i + 1)
  {
    if 0 <= i && i + |sub| <= |s| - 1 {
      assert s[1..][i..i + |sub|] == s[i + 1..i + 1 + |sub|];
    }
  }

  /** Go's `strings.Index`: the first position at which `sub` occurs in `s`,
      or -1 when it occurs nowhere. */
  function Index(s: string, sub: string): (r: int)
    ensures r == -1 || OccursAt(s, sub, r)
    ensures r == -1 ==> forall i :: !OccursAt(s, sub, i)
    ensures forall i :: 0 <= i < r ==> !OccursAt(s, sub, i)
    decreases |s|
  {
    if |s| < |sub| then -1
    else if s[..|sub|] == sub then 0
    else
      var k := Index(s[1..], sub);
      IndexShift(s, sub, k);
      if k < 0 then -1 else k + 1
  }

  /** The first occurrence in `s`, when `s` does not start with `sub`, is one
      past the first occurrence in its tail. */
  lemma IndexShift(s: string, sub: string, k: int)
    requires |s| >= |sub| && s[..|sub|] != sub
    requires k == -1 || OccursAt(s[1..], sub, k)
    requires k == -1 ==> forall i :: !OccursAt(s[1..], sub, i)
    requires forall i :: 0 <= i < k ==> !OccursAt(s[1..], sub, i)
    ensures var r := if k < 0 then -1 else k + 1;
      (r == -1 || OccursAt(s, sub, r))
      && (r == -1 ==> forall i :: !OccursAt(s, sub, i))
      && (forall i :: 0 <= i < r ==> !OccursAt(s, sub, i))
  {
    assert forall i :: i >= 0 ==> (OccursAt(s[1..], sub, i) <==> OccursAt(s, sub, i + 1)) by {
      forall i | i >= 0 ensures OccursAt(s[1..], sub, i) <==> OccursAt(s, sub, i + 1) {
        OccursAtTail(s, sub, i);
      }
    }
    assert !OccursAt(s, sub, 0);
    assert forall i :: OccursAt(s, sub, i) && i > 0 ==> OccursAt(s[1..], sub, i - 1);
  }

  /** Go's `strings.Contains`. */
  function Contains(s: string, sub: string): (r: bool)
    ensures r <==> exists i :: OccursAt(s, sub, i)
  {
    Index(s, sub) >= 0
  }

  /** Go's `strings.Split` for a non-empty separator: the pieces of `s`
      between the occurrences of `sep`, taken left to right. */
  function Split(s: string, sep: string): (parts: seq<string>)
    requires |sep| > 0
    ensures |parts| >= 1
    ensures forall k :: 0 <= k < |parts| ==> !Contains(parts[k], sep)
    decreases |s|
  {
    var i := Index(s, sep);
    if i < 0 then [s]
    else
      var head := s[..i];
      assert forall j :: OccursAt(head, sep, j) ==> OccursAt(s, sep, j) by {
        forall j | OccursAt(head, sep, j) ensures OccursAt(s, sep, j) {
          assert s[j..j + |sep|] == head[j..j + |sep|];
        }
      }
      [head] + Split(s[i + |sep|..], sep)
  }

  /** Go's `strings.Join`. */
  function Join(parts: seq<string>, sep: string): string
  {
    if |parts| == 0 then ""
    else if |parts| == 1 then parts[0]
    else parts[0] + sep + Join(parts[1..], sep)
  }

  /** Splitting loses nothing: joining the pieces with the separator gives
      back the original string. */
  lemma {:induction false} JoinSplit(s: string, sep: string)
    requires |sep| > 0
    ensures Join(Split(s, sep), sep) == s
    decreases |s|
  {
    var i := Index(s, sep);
    if i >= 0 {
      var head, rest := s[..i], s[i + |sep|..];
      var parts := Split(rest, sep);
      JoinSplit(rest, sep);
      assert Split(s, sep) == [head] + parts;
      assert ([head] + parts)[1..] == parts;
      assert Join([head] + parts, sep) == head + sep + Join(parts, sep);
      assert s[i..i + |sep|] == sep;
      assert s == head + s[i..i + |sep|] + rest;
    }
  }

  /** A string that does not hold the separator's first character splits into
      itself alone. */
  lemma NoSeparatorOnePiece(s: string, sep: string)
    requires |sep| > 0 && sep[0] !in s
    ensures Split(s, sep) == [s]
  {
  }

  /** Splitting `a + sep + rest`, where `a` does not hold the separator's
      first character, cuts off exactly `a`. */
  lemma SplitAtFirst(a: string, sep: string, rest: string)
    requires |sep| > 0 && sep[0] !in a
    ensures Split(a + sep + rest, sep) == [a] + Split(rest, sep)
  {
    var s := a + sep + rest;
    assert s[|a|..|a| + |sep|] == sep;
    assert OccursAt(s, sep, |a|);
    var i := Index(s, sep);
    assert i == |a|;
    assert s[..i] == a;
    assert s[i + |sep|..] == rest;
  }
}
