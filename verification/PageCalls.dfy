/** The heap as a client of page_map and page_unmap: its regions, and the calls that change them. */
module PageCalls {
  import opened Basics
  import opened HeapSizes

  /** The regions got from page_map: base address to pages. */
  type Regions = map<nat, nat>

  /** The pages from `base` on belong to no region. */
  predicate Unclaimed(m: Regions, base: nat, pages: nat) {
    && base % PAGE_SIZE == 0 && base + pages * PAGE_SIZE <= MEMORY
    && forall c <- m :: base + pages * PAGE_SIZE <= c || c + m[c] * PAGE_SIZE <= base
  }

  datatype PageCall = Map(base: nat, pages: nat) | Unmap(base: nat)

  /** page_map delivers pages of no region; only regions are unmapped. */
  ghost predicate Proper(m: Regions, c: PageCall) {
    match c
    case Map(b, n) => 0 < n && Unclaimed(m, b, n)
    case Unmap(b) => b in m
  }

  function After(m: Regions, c: PageCall): Regions {
    match c
    case Map(b, n) => m[b := n]
    case Unmap(b) => m - {b}
  }

  function AfterAll(m: Regions, cs: seq<PageCall>): Regions {
    if cs == [] then m else After(AfterAll(m, cs[..|cs| - 1]), cs[|cs| - 1])
  }

  ghost predicate AllProper(m: Regions, cs: seq<PageCall>) {
    cs == [] || (AllProper(m, cs[..|cs| - 1]) && Proper(AfterAll(m, cs[..|cs| - 1]), cs[|cs| - 1]))
  }

  /** The calls `cs`, all proper, turn the regions `m` into `r`. */
  ghost predicate Traced(m: Regions, cs: seq<PageCall>, r: Regions) {
    AfterAll(m, cs) == r && AllProper(m, cs)
  }

  lemma TracedNone(m: Regions)
    ensures Traced(m, [], m)
  {
  }

  lemma TracedNext(m: Regions, cs: seq<PageCall>, r: Regions, c: PageCall)
    requires Traced(m, cs, r) && Proper(r, c)
    ensures Traced(m, cs + [c], After(r, c))
  {
    assert (cs + [c])[..|cs|] == cs;
  }

  lemma {:induction false} TracedPrefix(m: Regions, cs: seq<PageCall>, k: nat)
    requires k <= |cs| && Traced(m, cs, AfterAll(m, cs))
    ensures Traced(m, cs[..k], AfterAll(m, cs[..k])) && (k < |cs| ==> Proper(AfterAll(m, cs[..k]), cs[k]))
    decreases |cs|
  {
    if k == |cs| {
      assert cs[..k] == cs;
    } else if k < |cs| - 1 {
      var ds := cs[..|cs| - 1];
      TracedPrefix(m, ds, k);
      assert ds[..k] == cs[..k];
    }
  }

  lemma {:induction false} TracedJoin(m: Regions, cs: seq<PageCall>, r: Regions, ds: seq<PageCall>, t: Regions)
    requires Traced(m, cs, r) && Traced(r, ds, t)
    ensures Traced(m, cs + ds, t)
    decreases |ds|
  {
    if ds == [] {
      assert cs + ds == cs;
    } else {
      var es, c := ds[..|ds| - 1], ds[|ds| - 1];
      var u := AfterAll(r, es);
      TracedJoin(m, cs, r, es, u);
      TracedNext(m, cs + es, u, c);
      assert cs + es + [c] == cs + ds;
    }
  }

  /** The call behind a change of free. */
  function UnmapCalls(b: nat, released: bool): seq<PageCall> {
    if released then [Unmap(b)] else []
  }

  lemma UnmapCallsTraced(m: Regions, b: nat, released: bool)
    requires released ==> b in m
    ensures Traced(m, UnmapCalls(b, released), m - if released then {b} else {})
  {
    TracedNone(m);
    if released {
      TracedNext(m, [], m, Unmap(b));
      assert [] + [Unmap(b)] == [Unmap(b)];
    }
  }
}
