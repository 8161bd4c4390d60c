/** Shortening of mutation labels such as "L6LEU-L81LEU" to "L6L-L81L":
    the string is split on '-', a part ending in a three-letter amino-acid
    code gets that code replaced by its one-letter code, and the parts are
    joined again with '-'. */
module Mutations {
  import opened Common

  /** The residue table, three-letter amino-acid code to one-letter code,
      written as four rows of five entries; read row after row it lists the
      entries in the order of the source's dictionary literal, which is the
      order in which a loop over the table visits the keys. */
  const AaRow1: seq<(string, char)> := [("ALA", 'A'), ("CYS", 'C'), ("ASP", 'D'), ("GLU", 'E'), ("PHE", 'F')]
  const AaRow2: seq<(string, char)> := [("GLY", 'G'), ("HIS", 'H'), ("ILE", 'I'), ("LYS", 'K'), ("LEU", 'L')]
  const AaRow3: seq<(string, char)> := [("MET", 'M'), ("ASN", 'N'), ("PRO", 'P'), ("GLN", 'Q'), ("ARG", 'R')]
  const AaRow4: seq<(string, char)> := [("SER", 'S'), ("THR", 'T'), ("VAL", 'V'), ("TRP", 'W'), ("TYR", 'Y')]
  const AaTable: seq<(string, char)> := AaRow1 + AaRow2 + AaRow3 + AaRow4

  /** No key occurs twice in `table`. */
  predicate DistinctKeys(table: seq<(string, char)>) {
    forall i, j :: 0 <= i < j < |table| ==> table[i].0 != table[j].0
  }

  /** The value stored under key `k`: the first entry with that key. */
  function Lookup(k: string, table: seq<(string, char)>): (r: Option<char>)
    ensures r.Some? ==> (k, r.value) in table
    ensures r.None? <==> forall i :: 0 <= i < |table| ==> table[i].0 != k
  {
    if table == [] then None
    else if table[0].0 == k then Some(table[0].1)
    else Lookup(k, table[1..])
  }

  /** With distinct keys, looking up the key of an entry yields its value. */
  lemma {:induction false} LookupEntry(table: seq<(string, char)>, i: nat)
    requires DistinctKeys(table) && i < |table|
    ensures Lookup(table[i].0, table) == Some(table[i].1)
  {
    if i > 0 {
      LookupEntry(table[1..], i - 1);
    }
  }

  /** The one-letter code of a three-letter code, if the table has it. */
  function OneLetter(code: string): Option<char> {
    Lookup(code, AaTable)
  }

  /** Every key is three characters long, every one-letter code is an
      upper-case letter, and no key occurs twice. */
  lemma TableShape()
    ensures forall i :: 0 <= i < |AaTable| ==> |AaTable[i].0| == 3 && 'A' <= AaTable[i].1 <= 'Z'
    ensures DistinctKeys(AaTable)
  {
    TableKeysDistinct();
  }

  /** No key of the residue table occurs twice. */
  lemma TableKeysDistinct()
    ensures DistinctKeys(AaTable)
  {
    RowsDistinct();
    RowsApartFirst();
    RowsApartLater();
    DistinctConcat(AaRow1, AaRow2);
    ApartConcat(AaRow1, AaRow2, AaRow3);
    DistinctConcat(AaRow1 + AaRow2, AaRow3);
    ApartConcat(AaRow1, AaRow2, AaRow4);
    ApartConcat(AaRow1 + AaRow2, AaRow3, AaRow4);
    DistinctConcat(AaRow1 + AaRow2 + AaRow3, AaRow4);
  }

  /** No key of `a` is a key of `b`. */
  predicate KeysApart(a: seq<(string, char)>, b: seq<(string, char)>) {
    forall i, j :: 0 <= i < |a| && 0 <= j < |b| ==> a[i].0 != b[j].0
  }

  lemma DistinctConcat(a: seq<(string, char)>, b: seq<(string, char)>)
    requires DistinctKeys(a) && DistinctKeys(b) && KeysApart(a, b)
    ensures DistinctKeys(a + b)
  {
    forall i, j | 0 <= i < j < |a + b| ensures (a + b)[i].0 != (a + b)[j].0 {
      if j < |a| {
      } else if i < |a| {
        assert (a + b)[j] == b[j - |a|];
      } else {
        assert (a + b)[j] == b[j - |a|] && (a + b)[i] == b[i - |a|];
      }
    }
  }

  lemma ApartConcat(a: seq<(string, char)>, b: seq<(string, char)>, c: seq<(string, char)>)
    requires KeysApart(a, c) && KeysApart(b, c)
    ensures KeysApart(a + b, c)
  {
    forall i, j | 0 <= i < |a + b| && 0 <= j < |c| ensures (a + b)[i].0 != c[j].0 {
      if i >= |a| {
        assert (a + b)[i] == b[i - |a|];
      }
    }
  }

  lemma RowsDistinct()
    ensures DistinctKeys(AaRow1) && DistinctKeys(AaRow2) && DistinctKeys(AaRow3) && DistinctKeys(AaRow4)
  {
  }

  lemma RowsApartFirst()
    ensures KeysApart(AaRow1, AaRow2) && KeysApart(AaRow1, AaRow3) && KeysApart(AaRow1, AaRow4)
  {
  }

  lemma RowsApartLater()
    ensures KeysApart(AaRow2, AaRow3) && KeysApart(AaRow2, AaRow4) && KeysApart(AaRow3, AaRow4)
  {
  }

  /** Because all keys have the same length, at most one of them ends a part. */
  lemma SuffixKeyUnique(p: string, i: nat, j: nat)
    requires i < |AaTable| && j < |AaTable|
    requires EndsWith(p, AaTable[i].0) && EndsWith(p, AaTable[j].0)
    ensures i == j
  {
    TableShape();
  }

  // ---------------------------------------------------------------------
  // Splitting on '-' and joining with '-' (Python's str.split / str.join)

  /** `s` cut at every '-'; like Python's `split('-')` there is always at
      least one part, and the empty string gives one empty part. */
  function Split(s: string): (parts: seq<string>)
    ensures |parts| >= 1
  {
    if s == [] then [""]
    else
      var rest := Split(s[1..]);
      if s[0] == '-' then [""] + rest else [[s[0]] + rest[0]] + rest[1..]
  }

  /** The parts glued together with '-' between consecutive parts. */
  function Join(parts: seq<string>): (r: string)
    ensures |parts| > 0 ==> StartsWith(r, parts[0])
  {
    if |parts| == 0 then ""
    else if |parts| == 1 then parts[0]
    else parts[0] + "-" + Join(parts[1..])
  }

  /** No part of a split contains '-'. */
  lemma {:induction false} SplitPartsDashFree(s: string)
    ensures forall i :: 0 <= i < |Split(s)| ==> '-' !in Split(s)[i]
  {
    if s != [] {
      SplitPartsDashFree(s[1..]);
    }
  }

  /** Joining the parts of a split gives back the original string. */
  lemma {:induction false} JoinSplit(s: string)
    ensures Join(Split(s)) == s
  {
    if s != [] {
      var rest := Split(s[1..]);
      JoinSplit(s[1..]);
      if s[0] == '-' {
        assert ([""] + rest)[1..] == rest;
      } else if |rest| > 1 {
        assert ([[s[0]] + rest[0]] + rest[1..])[1..] == rest[1..];
      }
    }
  }

  lemma {:induction false} SplitDashFree(p: string)
    requires '-' !in p
    ensures Split(p) == [p]
  {
    if p != [] {
      SplitDashFree(p[1..]);
      assert p == [p[0]] + p[1..];
      assert p[0] != '-';
    }
  }

  lemma {:induction false} SplitAtDash(p: string, rest: string)
    requires '-' !in p
    ensures Split(p + "-" + rest) == [p] + Split(rest)
  {
    var s := p + "-" + rest;
    if p == [] {
      assert s[1..] == rest;
    } else {
      assert s[1..] == p[1..] + "-" + rest;
      SplitAtDash(p[1..], rest);
      assert [p[0]] + p[1..] == p;
    }
  }

  /** Splitting a join of dash-free parts gives back the parts. */
  lemma {:induction false} SplitJoin(parts: seq<string>)
    requires |parts| >= 1
    requires forall i :: 0 <= i < |parts| ==> '-' !in parts[i]
    ensures Split(Join(parts)) == parts
  {
    if |parts| == 1 {
      SplitDashFree(parts[0]);
    } else {
      SplitJoin(parts[1..]);
      SplitAtDash(parts[0], Join(parts[1..]));
      assert [parts[0]] + parts[1..] == parts;
    }
  }

  // ---------------------------------------------------------------------
  // Shortening

  /** One part shortened: when its last three characters are a key of the
      residue table they are replaced by the one-letter code, otherwise the
      part is kept as it is. */
  function ShortenPart(p: string): (r: string)
    ensures r == p || (|p| >= 3 && |r| == |p| - 2 && r[..|p| - 3] == p[..|p| - 3])
  {
    if |p| >= 3 && OneLetter(p[|p| - 3..]).Some? then p[..|p| - 3] + [OneLetter(p[|p| - 3..]).value]
    else p
  }

  /** Every part shortened, position by position. */
  function ShortenEach(parts: seq<string>): (r: seq<string>)
    ensures |r| == |parts|
  {
    Map(parts, ShortenPart)
  }

  /** Shortening one part more of a list extends the shortened prefix by that
      part's shortening. */
  lemma ShortenEachPrefix(parts: seq<string>, i: nat)
    requires i < |parts|
    ensures ShortenEach(parts[..i + 1]) == ShortenEach(parts[..i]) + [ShortenPart(parts[i])]
  {
    MapPrefix(parts, ShortenPart, i);
  }

  /** The whole label shortened. */
  function Shortened(s: string): (r: string)
    ensures |r| <= |s|
  {
    var parts := Split(s);
    JoinSplit(s);
    JoinShorter(ShortenEach(parts), parts);
    Join(ShortenEach(parts))
  }

  /** Joining parts that are no longer than others, position by position,
      gives a string no longer than their join. */
  lemma {:induction false} JoinShorter(a: seq<string>, b: seq<string>)
    requires |a| == |b| && forall i :: 0 <= i < |a| ==> |a[i]| <= |b[i]|
    ensures |Join(a)| <= |Join(b)|
  {
    if |a| > 1 {
      JoinShorter(a[1..], b[1..]);
    }
  }

  /** A part that ends in a key loses that key and gains its one-letter code,
      so it is exactly two characters shorter. */
  lemma ShortenPartOfKey(p: string, i: nat)
    requires i < |AaTable| && EndsWith(p, AaTable[i].0)
    ensures ShortenPart(p) == p[..|p| - 3] + [AaTable[i].1]
    ensures |ShortenPart(p)| == |p| - 2
  {
    TableShape();
    LookupEntry(AaTable, i);
  }

  /** A part that ends in no key is copied unchanged. */
  lemma ShortenPartNoKey(p: string)
    requires forall i :: 0 <= i < |AaTable| ==> !EndsWith(p, AaTable[i].0)
    ensures ShortenPart(p) == p
  {
    TableShape();
    if |p| >= 3 {
      forall i | 0 <= i < |AaTable| ensures AaTable[i].0 != p[|p| - 3..] {
        assert !EndsWith(p, AaTable[i].0);
      }
    }
  }

  /** Shortening adds no character other than an upper-case letter. */
  lemma ShortenPartAvoids(p: string, c: char)
    requires c !in p && !('A' <= c <= 'Z')
    ensures c !in ShortenPart(p)
  {
    TableShape();
    if |p| >= 3 && OneLetter(p[|p| - 3..]).Some? {
      var code := OneLetter(p[|p| - 3..]).value;
      assert (p[|p| - 3..], code) in AaTable;
      assert 'A' <= code <= 'Z';
      assert forall x :: x in p[..|p| - 3] ==> x in p;
    }
  }

  lemma {:induction false} SplitAvoids(s: string, c: char)
    requires c !in s
    ensures forall i :: 0 <= i < |Split(s)| ==> c !in Split(s)[i]
  {
    if s != [] {
      SplitAvoids(s[1..], c);
      assert s == [s[0]] + s[1..];
    }
  }

  lemma {:induction false} JoinAvoids(parts: seq<string>, c: char)
    requires c != '-'
    requires forall i :: 0 <= i < |parts| ==> c !in parts[i]
    ensures c !in Join(parts)
  {
    if |parts| > 1 {
      JoinAvoids(parts[1..], c);
    }
  }

  /** A character that is neither '-' nor an upper-case letter occurs in the
      shortened label only if it occurs in the input. */
  lemma ShortenedChars(s: string, c: char)
    requires c != '-' && !('A' <= c <= 'Z') && c !in s
    ensures c !in Shortened(s)
  {
    var parts := Split(s);
    SplitAvoids(s, c);
    forall i | 0 <= i < |parts| ensures c !in ShortenEach(parts)[i] {
      ShortenPartAvoids(parts[i], c);
    }
    JoinAvoids(ShortenEach(parts), c);
  }

  /** The shortened label has as many '-'-separated parts as the input, and
      its part i is the shortening of input part i alone. */
  lemma ShortenedParts(s: string)
    ensures Split(Shortened(s)) == ShortenEach(Split(s))
    ensures |Split(Shortened(s))| == |Split(s)|
    ensures forall i :: 0 <= i < |Split(s)| ==> Split(Shortened(s))[i] == ShortenPart(Split(s)[i])
  {
    var parts := Split(s);
    SplitPartsDashFree(s);
    forall i | 0 <= i < |parts| ensures '-' !in ShortenEach(parts)[i] {
      assert '-' !in parts[i];
      ShortenPartAvoids(parts[i], '-');
    }
    SplitJoin(ShortenEach(parts));
  }

  /** A label in which no part ends in a key is left unchanged. */
  lemma ShortenedNoKey(s: string)
    requires forall i, j :: 0 <= i < |Split(s)| && 0 <= j < |AaTable| ==> !EndsWith(Split(s)[i], AaTable[j].0)
    ensures Shortened(s) == s
  {
    var parts := Split(s);
    forall i | 0 <= i < |parts| ensures ShortenEach(parts)[i] == parts[i] {
      ShortenPartNoKey(parts[i]);
    }
    assert ShortenEach(parts) == parts;
    JoinSplit(s);
  }

  /** The example of the documentation string. */
  lemma ShortenedExample(s: string)
    requires s == "L6LEU-L81LEU"
    ensures Shortened(s) == "L6L-L81L"
  {
    SplitExample(s);
    ShortenEachExample(Split(s));
    JoinExample(ShortenEach(Split(s)));
  }

  lemma SplitExample(s: string)
    requires s == "L6LEU-L81LEU"
    ensures Split(s) == ["L6LEU", "L81LEU"]
  {
    assert s == "L6LEU" + "-" + "L81LEU";
    SplitAtDash("L6LEU", "L81LEU");
    SplitDashFree("L81LEU");
  }

  lemma ShortenEachExample(parts: seq<string>)
    requires parts == ["L6LEU", "L81LEU"]
    ensures ShortenEach(parts) == ["L6L", "L81L"]
  {
    ShortenExamplePart(parts[0], "L6L");
    ShortenExamplePart(parts[1], "L81L");
    var short := ShortenEach(parts);
    assert short[0] == "L6L" && short[1] == "L81L";
  }

  lemma JoinExample(parts: seq<string>)
    requires parts == ["L6L", "L81L"]
    ensures Join(parts) == "L6L-L81L"
  {
  }

  lemma ShortenExamplePart(p: string, q: string)
    requires (p == "L6LEU" && q == "L6L") || (p == "L81LEU" && q == "L81L")
    ensures ShortenPart(p) == q
  {
    assert AaTable[9] == ("LEU", 'L');
    assert EndsWith(p, "LEU");
    ShortenPartOfKey(p, 9);
  }

  // ---------------------------------------------------------------------
  // The search loop over the table

  /** Python's `p[:-3]`: all but the last three characters, empty when the
      part is shorter than that. */
  function DropLast3(p: string): (r: string)
    ensures |r| == if |p| >= 3 then |p| - 3 else 0
    ensures r == p[..|r|]
  {
    if |p| >= 3 then p[..|p| - 3] else []
  }

  /** The inner loop of the shortening with its fall-back branch, visiting
      the entries in the order `order`: the first key the part ends in
      decides the replacement; when none does, the part is kept. */
  function ForElse(p: string, order: seq<(string, char)>): (r: string)
    ensures r == p || exists i :: 0 <= i < |order| && EndsWith(p, order[i].0) && r == DropLast3(p) + [order[i].1]
  {
    if order == [] then p
    else if EndsWith(p, order[0].0) then DropLast3(p) + [order[0].1]
    else ForElse(p, order[1..])
  }

  lemma {:induction false} ForElseSpec(p: string, order: seq<(string, char)>)
    requires forall i :: 0 <= i < |order| ==> |order[i].0| == 3
    ensures ForElse(p, order) ==
      if |p| >= 3 && Lookup(p[|p| - 3..], order).Some? then DropLast3(p) + [Lookup(p[|p| - 3..], order).value]
      else p
  {
    if order != [] {
      ForElseSpec(p, order[1..]);
    }
  }

  /** The result of the search does not depend on the order in which the
      table's entries are visited: any order of exactly the table's entries
      gives `ShortenPart`. */
  lemma ForElseAnyOrder(p: string, order: seq<(string, char)>)
    requires forall e :: e in order <==> e in AaTable
    ensures ForElse(p, order) == ShortenPart(p)
  {
    TableShape();
    assert forall i :: 0 <= i < |order| ==> order[i] in AaTable;
    ForElseSpec(p, order);
    if |p| >= 3 {
      var k := p[|p| - 3..];
      var m := OneLetter(k);
      if m.Some? {
        assert (k, m.value) in order;
        var c := Lookup(k, order).value;
        assert (k, c) in AaTable;
        assert c == m.value;
      } else {
        assert Lookup(k, order).None?;
      }
    }
  }

  /** The inner loop: visits the entries of `order` one by one and stops at
      the first key the part ends in. */
  method SearchOrder(p: string, order: seq<(string, char)>) returns (q: string)
    ensures q == ForElse(p, order)
  {
    assert order[0..] == order;
    var j := 0;
    while j < |order|
      invariant 0 <= j <= |order|
      invariant ForElse(p, order[j..]) == ForElse(p, order)
    {
      if EndsWith(p, order[j].0) {
        return DropLast3(p) + [order[j].1];
      }
      assert order[j..][1..] == order[j + 1..];
      j := j + 1;
    }
    return p;
  }

  /** Shortens one part by searching the table in its own order. */
  method ShortenOne(p: string) returns (q: string)
    ensures q == ShortenPart(p)
  {
    q := SearchOrder(p, AaTable);
    ForElseAnyOrder(p, AaTable);
  }

  /** Splits the label on '-', shortens every part, and joins the parts
      again. */
  method ShortenMutations(mutStr: string) returns (r: string)
    ensures r == Shortened(mutStr)
  {
    var parts := Split(mutStr);
    var shortParts: seq<string> := [];
    for i := 0 to |parts|
      invariant shortParts == ShortenEach(parts[..i])
    {
      var q := ShortenOne(parts[i]);
      shortParts := shortParts + [q];
      ShortenEachPrefix(parts, i);
    }
    assert parts[..|parts|] == parts;
    r := Join(shortParts);
  }
}
