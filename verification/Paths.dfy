/** Splitting of paths from the front and from the back (fs/fs.c); strings are without their final NUL. */
module Paths {
  import opened Basics
  import opened Sequences

  /** FULL_FILENAME_SIZE: name, dot and extension */
  const NAME_MAX := 12

  predicate Separator(c: char) {
    c == '/' || c == '\\'
  }

  /** The first separator at or after `i`, or the end. */
  function FirstSeparator(p: string, i: nat): (k: nat)
    requires i <= |p|
    ensures i <= k <= |p| && (k < |p| ==> Separator(p[k]))
    ensures forall j :: i <= j < k ==> !Separator(p[j])
    decreases |p| - i
  {
    if i == |p| || Separator(p[i]) then i else FirstSeparator(p, i + 1)
  }

  /** The last separator at or before `i`, or 0. */
  function LastSeparator(p: string, i: nat): (k: nat)
    requires i < |p|
    ensures k <= i && (k > 0 ==> Separator(p[k]))
    ensures forall j :: k < j <= i ==> !Separator(p[j])
  {
    if i == 0 || Separator(p[i]) then i else LastSeparator(p, i - 1)
  }

  /** get_first_file_from_path of a string */
  function First(p: string): Option<string> {
    var i := FirstSeparator(p, 0);
    if i > NAME_MAX then None else Some(p[..i])
  }

  /** eat_path of a string: the length limit counts a leading separator too. */
  function Rest(p: string): (r: Option<string>)
    ensures r.Some? ==> 0 < |r.value| < |p|
  {
    var i := FirstSeparator(p, if p != [] && Separator(p[0]) then 1 else 0);
    var j := if i < |p| then i + 1 else i;
    if i > NAME_MAX || j == |p| then None else Some(p[j..])
  }

  /** A path without its trailing separator. */
  function Trimmed(p: string): string {
    if p != [] && Separator(p[|p| - 1]) then p[..|p| - 1] else p
  }

  /** get_last_file_from_path of a string that is not a lone separator */
  function Last(p: string): Option<string>
    requires p == [] || Trimmed(p) != []
  {
    if p == [] then None
    else
      var q := Trimmed(p);
      var i := LastSeparator(q, |q| - 1);
      Some(q[if Separator(q[i]) then i + 1 else i..])
  }

  /** eat_path_reverse of a string */
  function Front(p: string): Option<string>
    requires p == [] || Trimmed(p) != []
  {
    if p == [] then None
    else
      var q := Trimmed(p);
      var i := LastSeparator(q, |q| - 1);
      if i == 0 then None else Some(q[..i])
  }

  // ---------------------------------------------------------------- the scanning code

  /** eat_path */
  method EatPath(path: Option<string>) returns (r: Option<string>)
    ensures r == if path.None? then None else Rest(path.value)
  {
    if path.None? { return None; }
    var p := path.value;
    var it := 0;
    if it < |p| && Separator(p[it]) { it := it + 1; }
    ghost var start := it;
    while it < |p| && !Separator(p[it])
      invariant start <= it <= |p| && (it <= NAME_MAX || it == start)
      invariant FirstSeparator(p, it) == FirstSeparator(p, start)
    {
      it := it + 1;
      if it > NAME_MAX {
        assert FirstSeparator(p, it) >= it;
        return None;
      }
    }
    if it < |p| && Separator(p[it]) { it := it + 1; }
    if |p| - it + 1 == 1 { return None; }
    return Some(p[it..]);
  }

  /** get_first_file_from_path */
  method GetFirst(path: Option<string>) returns (r: Option<string>)
    ensures r == if path.None? then None else First(path.value)
  {
    if path.None? { return None; }
    var p := path.value;
    var it := 0;
    while it < |p| && !Separator(p[it])
      invariant 0 <= it <= |p| && it <= NAME_MAX
      invariant FirstSeparator(p, it) == FirstSeparator(p, 0)
    {
      it := it + 1;
      if it > NAME_MAX {
        assert FirstSeparator(p, it) >= it;
        return None;
      }
    }
    return Some(p[..it]);
  }

  lemma Suffix(p: string, size: nat, i: nat)
    requires i <= size <= |p|
    ensures p[i..size] == p[..size][i..]
  {
  }

  /** What a scan from the back delivers: NULL, a string, or a read in front of the path. */
  datatype Scan = Null | Text(text: string) | InFront

  function ScanOf(r: Option<string>): Scan {
    match r
    case None => Null
    case Some(s) => Text(s)
  }

  /** The last name starts behind the last separator, or at the front. */
  lemma LastText(p: string, size: nat, i: nat)
    requires p != [] && size == (if Separator(p[|p| - 1]) then |p| - 1 else |p|) && 0 < size
    requires i == LastSeparator(p[..size], size - 1)
    ensures Last(p) == Some(p[if Separator(p[i]) then i + 1 else i..size])
  {
    var q := Trimmed(p);
    assert q == p[..size] && q[i] == p[i];
    Suffix(p, size, if Separator(p[i]) then i + 1 else i);
  }

  /** get_last_file_from_path; for a lone separator the index of the last character wraps around. */
  method GetLast(path: Option<string>) returns (r: Scan)
    ensures r == if path.None? || path.value == [] then Null
                 else if Trimmed(path.value) == [] then InFront else ScanOf(Last(path.value))
  {
    hide Last;
    if path.None? || path.value == [] { return Null; }
    var p := path.value;
    var size := |p|;
    if Separator(p[size - 1]) { size := size - 1; }
    if size == 0 { return InFront; }
    ghost var q := p[..size];
    var i := size - 1;
    while i > 0 && !Separator(p[i])
      invariant 0 <= i < size && LastSeparator(q, i) == LastSeparator(q, size - 1)
    {
      i := i - 1;
    }
    LastText(p, size, i);
    if Separator(p[i]) { i := i + 1; }
    return Text(p[i..size]);
  }

  /** eat_path_reverse */
  method EatPathReverse(path: Option<string>) returns (r: Scan)
    ensures r == if path.None? || path.value == [] then Null
                 else if Trimmed(path.value) == [] then InFront else ScanOf(Front(path.value))
  {
    if path.None? || path.value == [] { return Null; }
    var p := path.value;
    var size := |p|;
    if Separator(p[size - 1]) { size := size - 1; }
    if size == 0 { return InFront; }
    ghost var q := Trimmed(p);
    assert q == p[..size];
    var i := size - 1;
    while i > 0 && !Separator(p[i])
      invariant 0 <= i < size && LastSeparator(q, i) == LastSeparator(q, size - 1)
    {
      i := i - 1;
    }
    if i == 0 { return Null; }
    assert p[..i] == q[..i];
    return Text(p[..i]);
  }

  /** file_has_extention; with its 8-bit counter it would not end for a longer name. */
  method HasExtension(name: string) returns (r: bool)
    requires |name| < 256
    ensures r == ('.' in name)
  {
    var i := 0;
    while i < |name|
      invariant 0 <= i <= |name| && '.' !in name[..i]
    {
      if name[i] == '.' { return true; }
      i := i + 1;
    }
    assert name[..i] == name;
    return false;
  }

  /**
   * The loop of navigate_dir over a path: the names it looks up, up to the first one with an extension; None if a name
   * is NULL.
   */
  method Visit(path: string) returns (names: Option<seq<string>>)
    ensures names == LookedUp(path)
  {
    var p := Some(path);
    var seen: seq<string> := [];
    PrefixedNothing(LookedUp(path));
    while p.Some? && p.value != []
      invariant LookedUp(path) == Prefixed(seen, if p.Some? then LookedUp(p.value) else Some([]))
      decreases if p.Some? then |p.value| else 0
    {
      var name := GetFirst(p);
      if name.None? { return None; }
      ghost var q := p.value;
      p := EatPath(p);
      var file := HasExtension(name.value);
      if file {
        assert seen + [] == seen;
        return Some(seen);
      }
      ghost var rest := if p.Some? then LookedUp(p.value) else Some([]);
      assert LookedUp(q) == Prefixed([name.value], rest);
      PrefixedTwice(seen, [name.value], rest);
      seen := seen + [name.value];
    }
    assert seen + [] == seen;
    return Some(seen);
  }

  function LookedUp(p: string): Option<seq<string>>
    decreases |p|
  {
    if p == [] then Some([])
    else if First(p).None? then None
    else if '.' in First(p).value then Some([])
    else Prefixed([First(p).value], if Rest(p).None? then Some([]) else LookedUp(Rest(p).value))
  }

  function BeforeExtension(names: seq<string>): seq<string> {
    if names == [] || '.' in names[0] then [] else [names[0]] + BeforeExtension(names[1..])
  }

  /** The names looked up are the names of the path in front of the first one with an extension. */
  lemma {:induction false} LookedUpIs(p: string)
    requires Visited(p).Some?
    ensures LookedUp(p) == Some(BeforeExtension(Visited(p).value))
    decreases |p|
  {
    if p != [] {
      var c := First(p).value;
      if Rest(p).Some? {
        LookedUpIs(Rest(p).value);
        assert Visited(p).value == [c] + Visited(Rest(p).value).value;
        assert Visited(p).value[1..] == Visited(Rest(p).value).value;
      } else {
        assert Visited(p).value == [c] + [];
      }
    }
  }

  function Prefixed(s: seq<string>, r: Option<seq<string>>): Option<seq<string>> {
    if r.None? then None else Some(s + r.value)
  }

  lemma PrefixedNothing(r: Option<seq<string>>)
    ensures Prefixed([], r) == r
  {
    if r.Some? { assert [] + r.value == r.value; }
  }

  lemma PrefixedTwice(s: seq<string>, t: seq<string>, r: Option<seq<string>>)
    ensures Prefixed(s, Prefixed(t, r)) == Prefixed(s + t, r)
  {
    if r.Some? { assert s + (t + r.value) == (s + t) + r.value; }
  }

  lemma PrefixedOne(c: string, r: Option<seq<string>>, s: seq<string>)
    ensures Prefixed([c], r) == Some([c] + s) <==> r == Some(s)
  {
    if r.Some? { assert ([c] + r.value)[1..] == r.value && ([c] + s)[1..] == s; }
  }

  /** The names met by taking off first names until nothing is left. */
  function Visited(p: string): Option<seq<string>>
    decreases |p|
  {
    if p == [] then Some([])
    else if First(p).None? then None
    else Prefixed([First(p).value], if Rest(p).None? then Some([]) else Visited(Rest(p).value))
  }

  // ---------------------------------------------------------------- what it means

  /** The independent definition: a path is cut at every separator. */
  function Split(p: string): (cs: seq<string>)
    ensures |cs| > 0
    decreases |p|
  {
    var i := FirstSeparator(p, 0);
    if i == |p| then [p] else [p[..i]] + Split(p[i + 1..])
  }

  /** The characters of a path that are no separators. */
  function Letters(p: string): string {
    if p == [] then [] else (if p[0] == '/' || p[0] == '\\' then [] else [p[0]]) + Letters(p[1..])
  }

  function Concat(cs: seq<string>): string {
    if cs == [] then [] else cs[0] + Concat(cs[1..])
  }

  lemma {:induction false} LettersJoined(a: string, b: string)
    ensures Letters(a + b) == Letters(a) + Letters(b)
  {
    if a == [] {
      assert a + b == b;
    } else {
      assert (a + b)[0] == a[0] && (a + b)[1..] == a[1..] + b;
      LettersJoined(a[1..], b);
    }
  }

  lemma {:induction false} PlainLetters(a: string)
    requires forall i :: 0 <= i < |a| ==> !Separator(a[i])
    ensures Letters(a) == a
  {
    if a != [] { PlainLetters(a[1..]); }
  }

  /** A path without a separator is its only component. */
  lemma SplitWhole(p: string)
    requires FirstSeparator(p, 0) == |p|
    ensures Split(p) == [p] && p[..|p|] == p
  {
  }

  /** A path is its first component, and the components behind the separator. */
  lemma SplitCut(p: string)
    requires FirstSeparator(p, 0) < |p|
    ensures var i := FirstSeparator(p, 0); Split(p) == [p[..i]] + Split(p[i + 1..])
    ensures var i := FirstSeparator(p, 0); p == p[..i] + [p[i]] + p[i + 1..]
  {
    var i := FirstSeparator(p, 0);
    Around(p, i);
  }

  lemma ConcatCons(c: string, cs: seq<string>)
    ensures Concat([c] + cs) == c + Concat(cs)
  {
    assert ([c] + cs)[1..] == cs;
  }

  lemma LettersCut(c: string, s: char, q: string)
    requires Separator(s) && Letters(c) == c
    ensures Letters(c + [s] + q) == c + Letters(q)
  {
    assert Letters([s]) == [];
    hide Letters;
    LettersJoined(c + [s], q);
    LettersJoined(c, [s]);
  }

  /** The components of a path are what stands between its slashes and backslashes: one more than there are of them. */
  lemma {:induction false} SplitIs(p: string)
    ensures forall c <- Split(p) :: '/' !in c && '\\' !in c
    ensures Concat(Split(p)) == Letters(p) && |Split(p)| == 1 + |p| - |Letters(p)|
    decreases |p|
  {
    var i := FirstSeparator(p, 0);
    var c := p[..i];
    PlainLetters(c);
    if i == |p| {
      SplitWhole(p);
      ConcatCons(p, []);
    } else {
      var q := p[i + 1..];
      SplitCut(p);
      SplitIs(q);
      hide Split, Letters, Concat;
      LettersCut(c, p[i], q);
      ConcatCons(c, Split(q));
    }
  }

  function NonEmpty(cs: seq<string>): (r: seq<string>)
    ensures forall c <- r :: c != []
  {
    if cs == [] then [] else (if cs[0] == [] then [] else [cs[0]]) + NonEmpty(cs[1..])
  }

  /** No doubled or leading separator, and no component that is too long. */
  ghost predicate WellFormed(cs: seq<string>) {
    (forall i :: 0 <= i < |cs| - 1 ==> cs[i] != []) && (forall i :: 0 <= i < |cs| ==> |cs[i]| <= NAME_MAX)
  }

  /** A path that starts with a separator: the first name is empty, and the first component is skipped. */
  lemma LeadingSeparator(p: string)
    requires p != [] && Separator(p[0])
    ensures !WellFormed(Split(p)) && Visited(p) != Some(NonEmpty(Split(p)))
  {
    assert First(p) == Some([]);
    assert Split(p)[0] == [];
    if Visited(p).Some? {
      assert Visited(p).value[0] == [];
      assert [] in Visited(p).value;
    }
  }

  lemma NonEmptyCons(c: string, cs: seq<string>)
    requires c != []
    ensures NonEmpty([c] + cs) == [c] + NonEmpty(cs)
  {
    assert ([c] + cs)[1..] == cs;
  }

  lemma OnlyComponent(p: string)
    requires 0 < FirstSeparator(p, 0) <= NAME_MAX && FirstSeparator(p, 0) + 1 >= |p|
    ensures WellFormed(Split(p)) && Visited(p) == Some(NonEmpty(Split(p)))
  {
    var i := FirstSeparator(p, 0);
    assert Rest(p) == None;
    assert Visited(p) == Some([p[..i]] + []);
    if i == |p| {
      assert p[..i] == p && Split(p) == [p] + [];
      NonEmptyCons(p, []);
    } else {
      assert p[i + 1..] == [];
      assert Split(p) == [p[..i]] + [[]];
      assert NonEmpty([[]]) == NonEmpty([]);
      NonEmptyCons(p[..i], [[]]);
    }
  }

  /** Iterating from the front visits the components of a path if and only if the path is well formed. */
  lemma {:induction false} VisitedIffWellFormed(p: string)
    ensures Visited(p) == Some(NonEmpty(Split(p))) <==> WellFormed(Split(p))
    decreases |p|
  {
    var cs, i := Split(p), FirstSeparator(p, 0);
    if p == [] {
      assert cs == [[]] && NonEmpty([[]]) == NonEmpty([]);
    } else if i == 0 {
      LeadingSeparator(p);
    } else if i > NAME_MAX {
      assert |cs[0]| == i;
    } else if i + 1 >= |p| {
      OnlyComponent(p);
    } else {
      VisitedIffWellFormed(p[i + 1..]);
      NextComponent(p);
    }
  }

  lemma NextComponent(p: string)
    requires 0 < FirstSeparator(p, 0) <= NAME_MAX && FirstSeparator(p, 0) + 1 < |p|
    ensures var q := p[FirstSeparator(p, 0) + 1..];
      && (WellFormed(Split(p)) <==> WellFormed(Split(q)))
      && (Visited(p) == Some(NonEmpty(Split(p))) <==> Visited(q) == Some(NonEmpty(Split(q))))
  {
    var i := FirstSeparator(p, 0);
    var c, q := p[..i], p[i + 1..];
    assert Split(p) == [c] + Split(q);
    SplitCons(Split(p));
    assert Split(p)[1..] == Split(q);
    assert First(p) == Some(c) && Rest(p) == Some(q);
    assert Visited(p) == Prefixed([c], Visited(q));
    NonEmptyCons(c, Split(q));
    PrefixedOne(c, Visited(q), NonEmpty(Split(q)));
  }

  lemma SplitCons(cs: seq<string>)
    requires |cs| > 1 && cs[0] != [] && |cs[0]| <= NAME_MAX
    ensures WellFormed(cs) <==> WellFormed(cs[1..])
  {
    if WellFormed(cs[1..]) {
      forall i | 0 <= i < |cs| - 1 ensures cs[i] != [] {
        assert i > 0 ==> cs[i] == cs[1..][i - 1];
      }
      forall i | 0 <= i < |cs| ensures |cs[i]| <= NAME_MAX {
        assert i > 0 ==> cs[i] == cs[1..][i - 1];
      }
    }
    if WellFormed(cs) {
      forall i | 0 <= i < |cs| - 2 ensures cs[1..][i] != [] { assert cs[1..][i] == cs[i + 1]; }
      forall i | 0 <= i < |cs| - 1 ensures |cs[1..][i]| <= NAME_MAX { assert cs[1..][i] == cs[i + 1]; }
    }
  }

  lemma {:induction false} FirstShifted(p: string, i: nat)
    requires p != [] && i < |p|
    ensures FirstSeparator(p, i + 1) == FirstSeparator(p[1..], i) + 1
    decreases |p| - i
  {
    if i + 1 < |p| && !Separator(p[i + 1]) { FirstShifted(p, i + 1); }
  }

  /** The components that eat_path leaves of `cs`: those behind number `k`. */
  ghost predicate Left(r: Option<string>, cs: seq<string>, k: nat)
    requires k < |cs|
  {
    && (r == None <==> k + |cs[k]| > 12 || |cs| == k + 1 || (|cs| == k + 2 && cs[k + 1] == []))
    && (r.Some? ==> Split(r.value) == cs[k + 1..])
  }

  lemma FirstComponent(p: string)
    ensures Split(p)[0] == p[..FirstSeparator(p, 0)]
  {
  }

  lemma RestPlain(p: string)
    requires p == [] || !Separator(p[0])
    ensures Left(Rest(p), Split(p), 0)
  {
    var i := FirstSeparator(p, 0);
    if i < |p| {
      SplitCut(p);
      LeftBehind([p[..i]], p[i + 1..]);
    } else {
      SplitWhole(p);
    }
  }

  /** What is left when the components `a` are taken off in front of `q`. */
  lemma LeftBehind(a: seq<string>, q: string)
    requires a != []
    ensures var k := |a| - 1;
      Left(if k + |a[k]| > 12 || q == [] then None else Some(q), a + Split(q), k)
  {
    EmptySplit(q);
    hide Split;
    assert (a + Split(q))[|a|..] == Split(q);
  }

  /** Behind a leading separator eat_path looks for the next one. */
  lemma RestValue(p: string)
    requires p != [] && Separator(p[0])
    ensures var q := p[1..]; var j := FirstSeparator(q, 0);
      Rest(p) == if 1 + j > 12 || j == |q| || q[j + 1..] == [] then None else Some(q[j + 1..])
  {
    var q := p[1..];
    var j := FirstSeparator(q, 0);
    FirstShifted(p, 0);
    if j < |q| { assert p[j + 2..] == q[j + 1..]; }
  }

  lemma LeadingCut(p: string)
    requires p != [] && Separator(p[0])
    ensures Split(p) == [[]] + Split(p[1..])
  {
    SplitCut(p);
  }

  lemma Prepended(cs: seq<string>, c: string, ds: seq<string>)
    requires cs == [c] + ds
    ensures [[]] + cs == [[], c] + ds
  {
  }

  lemma RestBehind(p: string)
    requires p != [] && Separator(p[0])
    ensures |Split(p)| > 1 && Left(Rest(p), Split(p), 1)
  {
    var q := p[1..];
    var j := FirstSeparator(q, 0);
    RestValue(p);
    LeadingCut(p);
    if j < |q| {
      var c, r := q[..j], q[j + 1..];
      SplitCut(q);
      LeftBehind([[], c], r);
      Prepended(Split(q), c, Split(r));
      hide *;
    } else {
      SplitWhole(q);
      hide Split, Rest, FirstSeparator;
      assert Split(p) == [[], q];
    }
  }

  /**
   * For every path: the first name is the first component, if it has at most 12 characters. eat_path takes off the
   * first component, and the second one too behind a leading separator; it gives NULL if these take more than 12
   * characters, or nothing is left.
   */
  lemma RestIs(p: string)
    ensures First(p) == if |Split(p)[0]| <= 12 then Some(Split(p)[0]) else None
    ensures if p != [] && (p[0] == '/' || p[0] == '\\') then |Split(p)| > 1 && Left(Rest(p), Split(p), 1)
      else Left(Rest(p), Split(p), 0)
  {
    FirstComponent(p);
    hide Split, Left;
    if p != [] && Separator(p[0]) { RestBehind(p); } else { RestPlain(p); }
  }

  // ---------------------------------------------------------------- from the back

  ghost predicate Plain(p: string) {
    forall i :: 0 <= i < |p| ==> !Separator(p[i])
  }

  lemma {:induction false} SplitJoined(a: string, s: char, b: string)
    requires Separator(s) && Plain(b)
    ensures Split(a + [s] + b) == Split(a) + [b]
    decreases |a|
  {
    var p := a + [s] + b;
    var k := FirstSeparator(a, 0);
    assert p[..k] == a[..k];
    FirstIs(p, k);
    if k == |a| {
      assert p[k + 1..] == b && a[..k] == a;
      FirstIs(b, |b|);
      assert Split(a) == [a] && Split(b) == [b];
    } else {
      assert p[k + 1..] == a[k + 1..] + [s] + b;
      SplitJoined(a[k + 1..], s, b);
      assert [a[..k]] + (Split(a[k + 1..]) + [b]) == ([a[..k]] + Split(a[k + 1..])) + [b];
    }
  }

  lemma FirstIs(p: string, k: nat)
    requires k <= |p| && (k < |p| ==> Separator(p[k])) && Plain(p[..k])
    ensures FirstSeparator(p, 0) == k
  {
    forall j | 0 <= j < k ensures !Separator(p[j]) { assert p[..k][j] == p[j]; }
  }

  /** For every path: the last name is the last component, and what remains has the others, unless nothing remains. */
  lemma BackOfPath(p: string)
    requires p != [] && Trimmed(p) != []
    ensures var cs := Split(Trimmed(p));
      && Last(p) == Some(cs[|cs| - 1])
      && (Front(p) == None <==> |cs| == 1 || (|cs| == 2 && cs[0] == []))
      && (Front(p).Some? ==> Split(Front(p).value) == cs[..|cs| - 1])
  {
    hide NonEmpty;
    var q := Trimmed(p);
    var cs, i := Split(q), LastSeparator(q, |q| - 1);
    if Separator(q[i]) {
      var a, b := q[..i], q[i + 1..];
      Around(q, i);
      SplitJoined(a, q[i], b);
      assert cs == Split(a) + [b] && cs[..|cs| - 1] == Split(a);
      EmptySplit(a);
    } else {
      FirstIs(q, |q|);
      assert cs == [q] && q[0..] == q;
    }
  }

  lemma EmptySplit(a: string)
    ensures a == [] <==> Split(a) == [[]]
  {
  }

  /** Front and last name of any path, with the separator between them, are the path again. */
  lemma Reassembled(p: string)
    requires p != [] && Trimmed(p) != [] && Front(p).Some?
    ensures exists s :: Separator(s) && Trimmed(p) == Front(p).value + [s] + Last(p).value
  {
    var q := Trimmed(p);
    var i := LastSeparator(q, |q| - 1);
    Around(q, i);
  }

  lemma {:induction false} AllNonEmpty(cs: seq<string>)
    requires forall i :: 0 <= i < |cs| ==> cs[i] != []
    ensures NonEmpty(cs) == cs && NonEmpty(cs + [[]]) == cs
  {
    if cs == [] {
      assert NonEmpty([[]]) == NonEmpty([]);
    } else {
      AllNonEmpty(cs[1..]);
      NonEmptyCons(cs[0], cs[1..]);
      NonEmptyCons(cs[0], cs[1..] + [[]]);
      assert [cs[0]] + cs[1..] == cs && [cs[0]] + (cs[1..] + [[]]) == cs + [[]];
    }
  }

  /** On a well-formed path the front and the back agree: the last name visited, and the path of all others. */
  lemma BackAgreesWithFront(p: string)
    requires p != [] && WellFormed(Split(p))
    ensures Trimmed(p) != [] && Visited(p).Some? && |Visited(p).value| > 0
    ensures var names := Visited(p).value;
      && Last(p) == Some(names[|names| - 1])
      && (Front(p) == None <==> |names| == 1)
      && (Front(p).Some? ==> Visited(Front(p).value) == Some(names[..|names| - 1]))
  {
    VisitedIffWellFormed(p);
    TrimmedSplit(p);
    BackOfPath(p);
    if Front(p).Some? { FrontIsVisited(Front(p).value, Split(Trimmed(p))); }
  }

  lemma FrontIsVisited(r: string, cs: seq<string>)
    requires |cs| > 0 && Split(r) == cs[..|cs| - 1] && WellFormed(cs) && forall i :: 0 <= i < |cs| ==> cs[i] != []
    ensures Visited(r) == Some(cs[..|cs| - 1])
  {
    AllNonEmpty(cs[..|cs| - 1]);
    VisitedIffWellFormed(r);
  }

  lemma SplitTrailing(q: string, c: char)
    requires Separator(c)
    ensures Split(q + [c]) == Split(q) + [[]]
  {
    assert q + [c] + [] == q + [c];
    SplitJoined(q, c, []);
  }

  lemma WellFormedFront(cs: seq<string>)
    requires WellFormed(cs + [[]])
    ensures WellFormed(cs) && forall i :: 0 <= i < |cs| ==> cs[i] != []
  {
    var ds := cs + [[]];
    forall i | 0 <= i < |cs| ensures cs[i] != [] && |cs[i]| <= NAME_MAX { assert ds[i] == cs[i]; }
  }

  lemma TrimmedSplit(p: string)
    requires p != [] && WellFormed(Split(p))
    ensures Trimmed(p) != []
    ensures var cs := Split(Trimmed(p));
      NonEmpty(Split(p)) == cs && WellFormed(cs) && forall i :: 0 <= i < |cs| ==> cs[i] != []
  {
    var q := Trimmed(p);
    if q != p {
      TrimmedTrailing(p);
    } else {
      LastOfPath(p);
      AllNonEmpty(Split(p));
    }
  }

  /** The case of a path that ends with a separator. */
  lemma TrimmedTrailing(p: string)
    requires p != [] && WellFormed(Split(p)) && Separator(p[|p| - 1])
    ensures Trimmed(p) != []
    ensures var cs := Split(Trimmed(p));
      NonEmpty(Split(p)) == cs && WellFormed(cs) && forall i :: 0 <= i < |cs| ==> cs[i] != []
  {
    var q, c := p[..|p| - 1], p[|p| - 1];
    assert q + [c] == p && Trimmed(p) == q;
    SplitTrailing(q, c);
    WellFormedFront(Split(q));
    AllNonEmpty(Split(q));
    EmptySplit(q);
  }

  /** The case of a path that does not: no component is empty. */
  lemma LastOfPath(p: string)
    requires p != [] && Trimmed(p) == p && WellFormed(Split(p))
    ensures forall i :: 0 <= i < |Split(p)| ==> Split(p)[i] != []
  {
    BackOfPath(p);
    var i := LastSeparator(p, |p| - 1);
    assert Last(p).value == p[if Separator(p[i]) then i + 1 else i..];
  }
}
