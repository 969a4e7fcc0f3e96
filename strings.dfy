/** The two pieces of Python string handling the library relies on:
    `str.split(sep)` (left to right, occurrences never overlap) and
    `sep.join(parts)`. */
module Strings {
  import opened Wrappers

  /** `sep` occurs in `s` starting at position `i`. */
  predicate OccursAt(s: string, sep: string, i: nat) {
    i + |sep| <= |s| && s[i..i + |sep|] == sep
  }

  /** `sep` occurs somewhere in `s`. */
  ghost predicate Contains(s: string, sep: string) {
    exists i: nat :: OccursAt(s, sep, i)
  }

  /** The first position at or after `from` where `sep` occurs (`str.find`). */
  function FindFrom(s: string, sep: string, from: nat): (r: Option<nat>)
    requires |sep| > 0
    ensures r.Some? ==> from <= r.value && OccursAt(s, sep, r.value)
    ensures r.Some? ==> forall j: nat :: from <= j < r.value ==> !OccursAt(s, sep, j)
    ensures r.None? ==> forall j: nat :: from <= j ==> !OccursAt(s, sep, j)
    decreases |s| - from
  {
    if from + |sep| > |s| then None
    else if OccursAt(s, sep, from) then Some(from)
    else FindFrom(s, sep, from + 1)
  }

  /** Python's `s.split(sep)`: the pieces between successive non-overlapping
      occurrences of `sep`, found from the left. */
  function Split(s: string, sep: string): (parts: seq<string>)
    requires |sep| > 0
    ensures |parts| >= 1
    decreases |s|
  {
    match FindFrom(s, sep, 0)
    case None => [s]
    case Some(i) => [s[..i]] + Split(s[i + |sep|..], sep)
  }

  /** Python's `sep.join(parts)`. */
  function Join(parts: seq<string>, sep: string): string
    decreases |parts|
  {
    if |parts| == 0 then ""
    else if |parts| == 1 then parts[0]
    else parts[0] + sep + Join(parts[1..], sep)
  }

  /** `s.split(sep)[-1]`. */
  function LastPart(s: string, sep: string): string
    requires |sep| > 0
  {
    var parts := Split(s, sep);
    parts[|parts| - 1]
  }

  /** `s.split(sep)[0]`. */
  function FirstPart(s: string, sep: string): string
    requires |sep| > 0
  {
    Split(s, sep)[0]
  }

  /** An occurrence inside a prefix is an occurrence in the whole string. */
  lemma OccursInPrefix(s: string, sep: string, n: nat, j: nat)
    requires n <= |s| && OccursAt(s[..n], sep, j)
    ensures OccursAt(s, sep, j)
  {
    assert s[..n][j..j + |sep|] == s[j..j + |sep|];
  }

  /** An occurrence inside a suffix is an occurrence in the whole string. */
  lemma OccursInSuffix(s: string, sep: string, n: nat, j: nat)
    requires n <= |s| && OccursAt(s[n..], sep, j)
    ensures OccursAt(s, sep, n + j)
  {
    assert s[n..][j..j + |sep|] == s[n + j..n + j + |sep|];
  }

  /** Joining the pieces of a split with the same separator gives back the
      original string. */
  lemma {:induction false} JoinSplit(s: string, sep: string)
    requires |sep| > 0
    ensures Join(Split(s, sep), sep) == s
    decreases |s|
  {
    match FindFrom(s, sep, 0)
    case None =>
    case Some(i) =>
      var rest := s[i + |sep|..];
      var tail := Split(rest, sep);
      JoinSplit(rest, sep);
      JoinCons(s[..i], tail, sep);
      assert s == s[..i] + sep + rest by {
        assert s[i..i + |sep|] == sep;
        assert s == s[..i] + s[i..i + |sep|] + s[i + |sep|..];
      }
  }

  /** Joining a part in front of at least one more part puts the separator
      between them. */
  lemma JoinCons(head: string, tail: seq<string>, sep: string)
    requires |tail| >= 1
    ensures Join([head] + tail, sep) == head + sep + Join(tail, sep)
  {
    assert ([head] + tail)[1..] == tail;
  }

  /** No piece of a split contains the separator. */
  lemma {:induction false} SplitPartsFree(s: string, sep: string)
    requires |sep| > 0
    ensures forall k :: 0 <= k < |Split(s, sep)| ==> !Contains(Split(s, sep)[k], sep)
    decreases |s|
  {
    match FindFrom(s, sep, 0)
    case None =>
      forall j: nat | OccursAt(s, sep, j) ensures false {
      }
    case Some(i) =>
      var rest := s[i + |sep|..];
      SplitPartsFree(rest, sep);
      var parts := Split(s, sep);
      assert parts == [s[..i]] + Split(rest, sep);
      forall j: nat | OccursAt(s[..i], sep, j) ensures false {
        OccursInPrefix(s, sep, i, j);
      }
      forall k | 0 <= k < |parts| ensures !Contains(parts[k], sep) {
        if k > 0 {
          assert parts[k] == Split(rest, sep)[k - 1];
        }
      }
  }

  /** Every piece followed by the pieces after it, rejoined, is a suffix of
      the input; in particular the last piece is a suffix. */
  lemma {:induction false} LastPartIsSuffix(s: string, sep: string)
    requires |sep| > 0
    ensures |LastPart(s, sep)| <= |s|
    ensures LastPart(s, sep) == s[|s| - |LastPart(s, sep)|..]
    decreases |s|
  {
    match FindFrom(s, sep, 0)
    case None =>
    case Some(i) =>
      var rest := s[i + |sep|..];
      LastPartIsSuffix(rest, sep);
      var tail := Split(rest, sep);
      assert Split(s, sep) == [s[..i]] + tail;
      assert LastPart(s, sep) == LastPart(rest, sep);
      var n := |LastPart(rest, sep)|;
      assert rest[|rest| - n..] == s[|s| - n..];
  }

  /** When the separator is found, the last piece comes right after an
      occurrence of it. */
  lemma {:induction false} LastPartFollowsSeparator(s: string, sep: string)
    requires |sep| > 0 && FindFrom(s, sep, 0).Some?
    ensures |LastPart(s, sep)| + |sep| <= |s|
    ensures OccursAt(s, sep, |s| - |LastPart(s, sep)| - |sep|)
    decreases |s|
  {
    var i := FindFrom(s, sep, 0).value;
    var rest := s[i + |sep|..];
    LastPartAfter(s, sep, i);
    var n := |LastPart(rest, sep)|;
    match FindFrom(rest, sep, 0)
    case Some(_) =>
      LastPartFollowsSeparator(rest, sep);
      OccursInSuffix(s, sep, i + |sep|, |rest| - n - |sep|);
    case None =>
      assert LastPart(rest, sep) == rest;
  }

  /** The last piece of `s.split(sep)`: a suffix of `s` without the separator,
      following an occurrence of the separator when there is one, and all of
      `s` when there is none. The cut is made after the first occurrence, so
      occurrences never overlap. */
  lemma LastPartSpec(s: string, sep: string)
    requires |sep| > 0
    ensures |LastPart(s, sep)| <= |s|
    ensures LastPart(s, sep) == s[|s| - |LastPart(s, sep)|..]
    ensures !Contains(LastPart(s, sep), sep)
    ensures !Contains(s, sep) ==> LastPart(s, sep) == s
    ensures Contains(s, sep) ==>
              |LastPart(s, sep)| + |sep| <= |s| && OccursAt(s, sep, |s| - |LastPart(s, sep)| - |sep|)
    ensures FindFrom(s, sep, 0).Some? ==>
              LastPart(s, sep) == LastPart(s[FindFrom(s, sep, 0).value + |sep|..], sep)
  {
    LastPartIsSuffix(s, sep);
    SplitPartsFree(s, sep);
    if Contains(s, sep) {
      assert FindFrom(s, sep, 0).Some?;
      LastPartFollowsSeparator(s, sep);
    }
    LastPartAfterFirst(s, sep);
  }

  /** The last piece is the last piece of what follows the first occurrence. */
  lemma LastPartAfterFirst(s: string, sep: string)
    requires |sep| > 0
    ensures FindFrom(s, sep, 0).Some? ==>
              LastPart(s, sep) == LastPart(s[FindFrom(s, sep, 0).value + |sep|..], sep)
  {
    match FindFrom(s, sep, 0)
    case None =>
    case Some(i) => LastPartAfter(s, sep, i);
  }

  /** The first piece of `s.split(sep)`: the prefix of `s` before the first
      occurrence of the separator, and all of `s` when it does not occur. */
  lemma FirstPartSpec(s: string, sep: string)
    requires |sep| > 0
    ensures |FirstPart(s, sep)| <= |s|
    ensures FirstPart(s, sep) == s[..|FirstPart(s, sep)|]
    ensures !Contains(FirstPart(s, sep), sep)
    ensures !Contains(s, sep) ==> FirstPart(s, sep) == s
    ensures Contains(s, sep) ==> OccursAt(s, sep, |FirstPart(s, sep)|)
    ensures forall j: nat :: j < |FirstPart(s, sep)| ==> !OccursAt(s, sep, j)
  {
    SplitPartsFree(s, sep);
    match FindFrom(s, sep, 0)
    case None =>
    case Some(i) =>
      assert FirstPart(s, sep) == s[..i];
  }

  /** Searching a joined string for a one-character separator stops at the
      end of the first part when that part does not hold the character. */
  lemma {:induction false} FindAfterPart(a: string, c: char, b: string, from: nat)
    requires from <= |a| && c !in a[from..]
    ensures FindFrom(a + [c] + b, [c], from) == Some(|a|)
    decreases |a| - from
  {
    var s := a + [c] + b;
    assert OccursAt(s, [c], |a|) by { assert s[|a|..|a| + 1] == [c]; }
    if from < |a| {
      assert !OccursAt(s, [c], from) by {
        assert a[from..][0] == a[from];
        assert s[from..from + 1] == [a[from]];
      }
      assert a[from + 1..] == a[from..][1..];
      FindAfterPart(a, c, b, from + 1);
    }
  }

  /** A string that does not hold the character has no occurrence of it. */
  lemma NotFoundWithout(s: string, c: char)
    requires c !in s
    ensures FindFrom(s, [c], 0).None?
  {
    forall j: nat | j + 1 <= |s| ensures !OccursAt(s, [c], j) {
      assert s[j..j + 1] == [s[j]];
    }
  }

  /** Splitting a join on a one-character separator gives back the parts,
      provided there is at least one part and none holds the character. */
  lemma {:induction false} SplitJoin(parts: seq<string>, c: char)
    requires |parts| >= 1
    requires forall k :: 0 <= k < |parts| ==> c !in parts[k]
    ensures Split(Join(parts, [c]), [c]) == parts
    decreases |parts|
  {
    if |parts| == 1 {
      NotFoundWithout(parts[0], c);
    } else {
      var rest := Join(parts[1..], [c]);
      var s := parts[0] + [c] + rest;
      assert Join(parts, [c]) == s;
      assert parts[0][0..] == parts[0];
      FindAfterPart(parts[0], c, rest, 0);
      assert s[..|parts[0]|] == parts[0];
      assert s[|parts[0]| + 1..] == rest;
      SplitJoin(parts[1..], c);
      assert parts == [parts[0]] + parts[1..];
    }
  }

  /** The first occurrence is at `i` when no earlier position starts with
      the separator's first character. */
  lemma FindAt(s: string, sep: string, i: nat)
    requires |sep| > 0 && OccursAt(s, sep, i)
    requires forall j :: 0 <= j < i ==> s[j] != sep[0]
    ensures FindFrom(s, sep, 0) == Some(i)
  {
    forall j: nat | j < i ensures !OccursAt(s, sep, j) {
      if j + |sep| <= |s| {
        assert s[j..j + |sep|][0] == s[j];
      }
    }
  }

  /** There is no occurrence when the separator's first character is absent. */
  lemma FindNone(s: string, sep: string)
    requires |sep| > 0 && sep[0] !in s
    ensures FindFrom(s, sep, 0).None?
  {
    forall j: nat | j + |sep| <= |s| ensures !OccursAt(s, sep, j) {
      assert s[j..j + |sep|][0] == s[j];
    }
  }

  /** The last piece lies after the first occurrence. */
  lemma LastPartAfter(s: string, sep: string, i: nat)
    requires |sep| > 0 && FindFrom(s, sep, 0) == Some(i)
    ensures LastPart(s, sep) == LastPart(s[i + |sep|..], sep)
  {
  }

  /** The first piece ends at the first occurrence. */
  lemma FirstPartBefore(s: string, sep: string, i: nat)
    requires |sep| > 0 && FindFrom(s, sep, 0) == Some(i)
    ensures FirstPart(s, sep) == s[..i]
  {
  }
}
