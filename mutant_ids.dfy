/** Extraction of a mutant identifier such as "G1_mutant_000" from a file
    name: a leftmost search for the pattern `(Group\d+|G\d+)_mutant_\d+`,
    written out as a matcher over the characters of the name. The search
    returns the match, or the whole name when nothing matches. */
module MutantIds {
  import opened Common

  /** A decimal digit. */
  predicate IsDigit(c: char) {
    '0' <= c <= '9'
  }

  /** Every character of `d` is a digit. */
  predicate AllDigits(d: string) {
    forall i :: 0 <= i < |d| ==> IsDigit(d[i])
  }

  /** A non-empty run of digits (what `\d+` matches). */
  predicate IsDigits(d: string) {
    |d| > 0 && AllDigits(d)
  }

  /** `s` holds `lit` at position `i`. */
  predicate HasAt(s: string, i: nat, lit: string) {
    i + |lit| <= |s| && s[i..i + |lit|] == lit
  }

  /** The end of the longest run of digits that starts at `i`. */
  function DigitRunEnd(s: string, i: nat): (j: nat)
    requires i <= |s|
    ensures i <= j <= |s|
    decreases |s| - i
  {
    if i < |s| && IsDigit(s[i]) then DigitRunEnd(s, i + 1) else i
  }

  /** The run is all digits and cannot be extended. */
  lemma {:induction false} DigitRunEndMaximal(s: string, i: nat)
    requires i <= |s|
    ensures AllDigits(s[i..DigitRunEnd(s, i)])
    ensures DigitRunEnd(s, i) == |s| || !IsDigit(s[DigitRunEnd(s, i)])
    decreases |s| - i
  {
    if i < |s| && IsDigit(s[i]) {
      DigitRunEndMaximal(s, i + 1);
      var j := DigitRunEnd(s, i);
      assert s[i..j] == [s[i]] + s[i + 1..j];
    }
  }

  const Infix: string := "_mutant_"

  /** One branch of the alternation: `head` followed by `\d+_mutant_\d+`,
      tried at position `i`. A digit run can only be followed by '_' when it
      is taken whole, so the greedy run is the only one that can succeed, and
      the final run, ending the pattern, is taken whole. `Some(j)` gives the
      end of the match. */
  function MatchBranch(s: string, i: nat, head: string): (r: Option<nat>)
    requires i <= |s|
    ensures r.Some? ==> i < r.value <= |s|
  {
    if !HasAt(s, i, head) then None
    else
      var e1 := DigitRunEnd(s, i + |head|);
      if e1 == i + |head| || !HasAt(s, e1, Infix) then None
      else
        var e2 := DigitRunEnd(s, e1 + |Infix|);
        if e2 == e1 + |Infix| then None else Some(e2)
  }

  /** The pattern tried at position `i`: first the `Group` branch, then the
      `G` branch. */
  function MatchAt(s: string, i: nat): (r: Option<nat>)
    requires i <= |s|
    ensures r.Some? ==> i < r.value <= |s|
  {
    var g := MatchBranch(s, i, "Group");
    if g.Some? then g else MatchBranch(s, i, "G")
  }

  /** The pieces of a mutant identifier: its head, its group number and its
      mutant number. */
  predicate IsMutantIdParts(head: string, group: string, mutant: string) {
    (head == "Group" || head == "G") && IsDigits(group) && IsDigits(mutant)
  }

  function MutantIdOf(head: string, group: string, mutant: string): string {
    head + group + Infix + mutant
  }

  /** `t` is a string the pattern describes. */
  ghost predicate IsMutantId(t: string) {
    exists head, group, mutant :: IsMutantIdParts(head, group, mutant) && t == MutantIdOf(head, group, mutant)
  }

  /** A slice that holds `head` and `infix` at two cut points is `head`, the
      text between them, `infix` and the rest, in that order. */
  lemma SliceLayout(s: string, i: nat, a: nat, e1: nat, b: nat, e2: nat, head: string, infix: string)
    requires i <= a <= e1 <= b <= e2 <= |s|
    requires s[i..a] == head && s[e1..b] == infix
    ensures s[i..e2] == head + s[a..e1] + infix + s[b..e2]
  {
    assert s[i..e2] == s[i..a] + s[a..e2];
    assert s[a..e2] == s[a..e1] + s[e1..e2];
    assert s[e1..e2] == s[e1..b] + s[b..e2];
  }

  /** What a successful branch has checked: `head` at `i`, a non-empty digit
      run, the infix, and a non-empty digit run ending the match. */
  lemma MatchBranchUnpack(s: string, i: nat, head: string)
    requires i <= |s| && MatchBranch(s, i, head).Some?
    ensures var a := i + |head|;
            var e1 := DigitRunEnd(s, a);
            var e2 := DigitRunEnd(s, e1 + |Infix|);
            HasAt(s, i, head) && a < e1 && HasAt(s, e1, Infix) && e1 + |Infix| < e2
            && MatchBranch(s, i, head).value == e2
  {
  }

  /** Text that holds `head`, a maximal non-empty digit run, `infix` and a
      maximal non-empty digit run is those four pieces in order, the runs
      being digits and the last one not extensible. */
  lemma BranchPieces(s: string, i: nat, head: string, e1: nat, infix: string, e2: nat)
    requires i + |head| < e1 && e1 + |infix| < e2 <= |s|
    requires s[i..i + |head|] == head && s[e1..e1 + |infix|] == infix
    requires e1 == DigitRunEnd(s, i + |head|) && e2 == DigitRunEnd(s, e1 + |infix|)
    ensures IsDigits(s[i + |head|..e1]) && IsDigits(s[e1 + |infix|..e2])
    ensures s[i..e2] == head + s[i + |head|..e1] + infix + s[e1 + |infix|..e2]
    ensures e2 == |s| || !IsDigit(s[e2])
  {
    DigitRunEndMaximal(s, i + |head|);
    DigitRunEndMaximal(s, e1 + |infix|);
    SliceLayout(s, i, i + |head|, e1, e1 + |infix|, e2, head, infix);
  }

  /** A match at `i` is a mutant identifier whose final digit run cannot be
      extended. */
  lemma MatchAtSound(s: string, i: nat)
    requires i <= |s| && MatchAt(s, i).Some?
    ensures IsMutantId(s[i..MatchAt(s, i).value])
    ensures MatchAt(s, i).value == |s| || !IsDigit(s[MatchAt(s, i).value])
  {
    var head := if MatchBranch(s, i, "Group").Some? then "Group" else "G";
    assert MatchAt(s, i) == MatchBranch(s, i, head);
    MatchBranchUnpack(s, i, head);
    var e1 := DigitRunEnd(s, i + |head|);
    var e2 := DigitRunEnd(s, e1 + |Infix|);
    BranchPieces(s, i, head, e1, Infix, e2);
    assert IsMutantIdParts(head, s[i + |head|..e1], s[e1 + |Infix|..e2]);
  }

  /** The run of digits starting at `a` ends exactly at `b` when every
      character before `b` is a digit and the one at `b` is not. */
  lemma {:induction false} DigitRunEndExact(s: string, a: nat, b: nat)
    requires a <= b <= |s|
    requires forall k :: a <= k < b ==> IsDigit(s[k])
    requires b == |s| || !IsDigit(s[b])
    ensures DigitRunEnd(s, a) == b
    decreases b - a
  {
    if a < b {
      DigitRunEndExact(s, a + 1, b);
    }
  }

  /** A maximal run of digits that is a slice ends where the slice ends. */
  lemma RunEndsAt(s: string, a: nat, b: nat)
    requires a <= b <= |s| && AllDigits(s[a..b])
    requires b == |s| || !IsDigit(s[b])
    ensures DigitRunEnd(s, a) == b
  {
    forall k | a <= k < b ensures IsDigit(s[k]) {
      assert s[k] == s[a..b][k - a];
    }
    DigitRunEndExact(s, a, b);
  }

  /** Text holding four pieces in a row holds each of them at its offset. */
  lemma SliceOfConcat(s: string, i: nat, p1: string, p2: string, p3: string, p4: string)
    requires i + |p1 + p2 + p3 + p4| <= |s| && s[i..i + |p1 + p2 + p3 + p4|] == p1 + p2 + p3 + p4
    ensures var a := i + |p1|;
            var b := a + |p2|;
            var c := b + |p3|;
            var d := c + |p4|;
            s[i..a] == p1 && s[a..b] == p2 && s[b..c] == p3 && s[c..d] == p4
  {
    var a := i + |p1|;
    var b := a + |p2|;
    var c := b + |p3|;
    var d := c + |p4|;
    assert s[i..d] == s[i..c] + s[c..d];
    ConcatCancel(s[i..c], s[c..d], p1 + p2 + p3, p4);
    assert s[i..c] == s[i..b] + s[b..c];
    ConcatCancel(s[i..b], s[b..c], p1 + p2, p3);
    assert s[i..b] == s[i..a] + s[a..b];
    ConcatCancel(s[i..a], s[a..b], p1, p2);
  }

  /** Two concatenations with equally long first parts are equal only when
      both parts are. */
  lemma ConcatCancel(x: string, y: string, u: string, v: string)
    requires x + y == u + v && |x| == |u|
    ensures x == u && y == v
  {
    assert x == (x + y)[..|x|];
    assert y == (x + y)[|x|..];
  }

  /** The checks of a branch, in the other direction: when they all succeed
      the branch matches. */
  lemma MatchBranchPack(s: string, i: nat, head: string, e1: nat, e2: nat)
    requires i <= |s| && HasAt(s, i, head)
    requires DigitRunEnd(s, i + |head|) == e1 && i + |head| < e1 && HasAt(s, e1, Infix)
    requires DigitRunEnd(s, e1 + |Infix|) == e2 && e1 + |Infix| < e2
    ensures MatchBranch(s, i, head) == Some(e2)
  {
  }

  /** A branch matches every occurrence of its identifier shape whose final
      digit run cannot be extended. */
  lemma MatchBranchComplete(s: string, i: nat, head: string, group: string, mutant: string)
    requires IsDigits(group) && IsDigits(mutant)
    requires HasAt(s, i, head + group + Infix + mutant)
    requires i + |head + group + Infix + mutant| == |s| || !IsDigit(s[i + |head + group + Infix + mutant|])
    ensures MatchBranch(s, i, head) == Some(i + |head + group + Infix + mutant|)
  {
    var a := i + |head|;
    var b := a + |group|;
    var c := b + |Infix|;
    var d := c + |mutant|;
    SliceOfConcat(s, i, head, group, Infix, mutant);
    assert s[b] == s[b..c][0] == '_';
    RunEndsAt(s, a, b);
    RunEndsAt(s, c, d);
    MatchBranchPack(s, i, head, b, d);
  }

  /** The matcher finds every mutant identifier whose final digit run cannot
      be extended, at the position where it starts. */
  lemma MatchAtComplete(s: string, i: nat, head: string, group: string, mutant: string)
    requires IsMutantIdParts(head, group, mutant)
    requires HasAt(s, i, MutantIdOf(head, group, mutant))
    requires i + |MutantIdOf(head, group, mutant)| == |s| || !IsDigit(s[i + |MutantIdOf(head, group, mutant)|])
    ensures MatchAt(s, i) == Some(i + |MutantIdOf(head, group, mutant)|)
  {
    MatchBranchComplete(s, i, head, group, mutant);
    if head == "G" {
      var t := MutantIdOf(head, group, mutant);
      assert s[i + 1] == t[1] == group[0];
      assert !HasAt(s, i, "Group") by { assert "Group"[1] == 'r'; }
    }
  }

  /** A leftmost search for the pattern from position `i` on: the start and
      end of the first match, or `None` when there is none. */
  function Search(s: string, i: nat): (r: Option<(nat, nat)>)
    requires i <= |s|
    ensures r.Some? ==> i <= r.value.0 <= |s| && MatchAt(s, r.value.0) == Some(r.value.1)
    decreases |s| - i
  {
    var m := MatchAt(s, i);
    if m.Some? then Some((i, m.value))
    else if i == |s| then None
    else Search(s, i + 1)
  }

  /** The search returns the first matching position at or after `i`. */
  lemma {:induction false} SearchFinds(s: string, i: nat, a: nat)
    requires i <= a <= |s| && MatchAt(s, a).Some?
    requires forall k :: i <= k < a ==> MatchAt(s, k).None?
    ensures Search(s, i) == Some((a, MatchAt(s, a).value))
    decreases a - i
  {
    if i < a {
      SearchFinds(s, i + 1, a);
    }
  }

  /** The search fails when no position at or after `i` matches. */
  lemma {:induction false} SearchNone(s: string, i: nat)
    requires i <= |s|
    requires forall k :: i <= k <= |s| ==> MatchAt(s, k).None?
    ensures Search(s, i).None?
    decreases |s| - i
  {
    if i < |s| {
      SearchNone(s, i + 1);
    }
  }

  /** Conversely, every position before the one the search returns fails to
      match. */
  lemma {:induction false} SearchLeftmost(s: string, i: nat)
    requires i <= |s| && Search(s, i).Some?
    ensures forall k :: i <= k < Search(s, i).value.0 ==> MatchAt(s, k).None?
    decreases |s| - i
  {
    if MatchAt(s, i).None? && i < |s| {
      assert Search(s, i) == Search(s, i + 1);
      SearchLeftmost(s, i + 1);
    }
  }

  /** When the search returns `None`, no position at or after `i` matches. */
  lemma {:induction false} SearchNoneComplete(s: string, i: nat)
    requires i <= |s| && Search(s, i).None?
    ensures forall k :: i <= k <= |s| ==> MatchAt(s, k).None?
    decreases |s| - i
  {
    if i < |s| {
      assert Search(s, i) == Search(s, i + 1);
      SearchNoneComplete(s, i + 1);
    }
  }

  /** The mutant identifier in a file name: the leftmost match of the
      pattern, or the whole name when nothing matches. */
  function ExtractMutantId(filename: string): (r: string)
    ensures r == filename || IsMutantIdIn(filename, r)
  {
    match Search(filename, 0)
    case Some((a, b)) => filename[a..b]
    case None => filename
  }

  /** `r` occurs in `s` at a position where the pattern matches, and it is the
      whole of that match. */
  ghost predicate IsMutantIdIn(s: string, r: string) {
    exists a :: 0 <= a <= |s| && MatchAt(s, a).Some? && r == s[a..MatchAt(s, a).value]
  }

  /** When no position matches, the name is returned unchanged. */
  lemma ExtractNoMatch(filename: string)
    requires forall k :: 0 <= k <= |filename| ==> MatchAt(filename, k).None?
    ensures ExtractMutantId(filename) == filename
  {
    SearchNone(filename, 0);
  }

  /** When `a` is the leftmost matching position, the result is exactly the
      match there: a mutant identifier, taken from the name, with its final
      digit run taken whole. */
  lemma ExtractLeftmost(filename: string, a: nat)
    requires a <= |filename| && MatchAt(filename, a).Some?
    requires forall k :: 0 <= k < a ==> MatchAt(filename, k).None?
    ensures ExtractMutantId(filename) == filename[a..MatchAt(filename, a).value]
    ensures IsMutantId(ExtractMutantId(filename))
  {
    SearchFinds(filename, 0, a);
    MatchAtSound(filename, a);
  }

  /** The example of the documentation string. */
  lemma ExtractExample(filename: string)
    requires filename == "G1_mutant_000_G1_mutant_000.pdb_0001"
    ensures ExtractMutantId(filename) == "G1_mutant_000"
  {
    assert MutantIdOf("G", "1", "000") == "G1_mutant_000";
    assert filename[..13] == "G1_mutant_000";
    assert filename[13] == '_';
    MatchAtComplete(filename, 0, "G", "1", "000");
    ExtractLeftmost(filename, 0);
  }
}
