/** What page_map and page_unmap do to the pages of the heap's regions. */
module RegionPages {
  import opened Basics
  import opened HeapSizes
  import opened PageCalls

  /** The mapped pages below the window of the tables, by number: page `q` is entry q % 1024 of table q / 1024. */
  type Pages = iset<nat>

  /** The number of the page at `b`. */
  function First(b: nat): nat {
    b / PAGE_SIZE
  }

  /** Line 197 of page_unmap looks at the table numbered like the page behind the `n` pages from `q` on. */
  ghost predicate Drops(p: Pages, q: nat, n: nat) {
    var e := q % 1024 + n;
    e < 1023 && forall r :: r in p && r / 1024 == e ==> q <= r < q + n
  }

  ghost function AfterUnmap(p: Pages, q: nat, n: nat): Pages {
    iset r | r in p && !(q <= r < q + n) && !(Drops(p, q, n) && r / 1024 == q / 1024)
  }

  ghost function AfterMap(p: Pages, q: nat, n: nat): Pages {
    iset r: nat | r in p || q <= r < q + n
  }

  ghost function AfterCall(m: Regions, p: Pages, c: PageCall): Pages
    requires Proper(m, c)
  {
    match c
    case Map(b, n) => AfterMap(p, First(b), n)
    case Unmap(b) => AfterUnmap(p, First(b), m[b])
  }

  ghost predicate PageOf(m: Regions, c: nat, r: nat)
    requires c in m
  {
    First(c) <= r < First(c) + m[c]
  }

  ghost predicate RegionBacked(m: Regions, p: Pages, c: nat)
    requires c in m
  {
    forall r: nat :: PageOf(m, c, r) ==> r in p
  }

  /** All pages of all regions are mapped. */
  ghost predicate Backed(m: Regions, p: Pages) {
    forall c {:trigger RegionBacked(m, p, c)} :: c in m ==> RegionBacked(m, p, c)
  }

  ghost predicate Distant(m: Regions, b: nat, c: nat)
    requires b in m && c in m
  {
    b != c ==> First(b) + m[b] <= First(c) || First(c) + m[c] <= First(b)
  }

  /** Regions are whole pages and share none. */
  ghost predicate Regular(m: Regions) {
    && (forall b <- m :: b % PAGE_SIZE == 0 && 0 < m[b])
    && (forall b, c {:trigger Distant(m, b, c)} :: b in m && c in m ==> Distant(m, b, c))
  }

  lemma RegularAfter(m: Regions, c: PageCall)
    requires Regular(m) && Proper(m, c)
    ensures Regular(After(m, c))
  {
    var r := After(m, c);
    forall x, y | x in r && y in r ensures Distant(r, x, y) {
      if x in m && y in m { assert Distant(m, x, y); }
      if c.Map? {
        UnclaimedPages(m, c.base, c.pages, x);
        UnclaimedPages(m, c.base, c.pages, y);
      }
    }
  }

  lemma UnclaimedPages(m: Regions, b: nat, n: nat, c: nat)
    requires Unclaimed(m, b, n) && (c in m ==> c % PAGE_SIZE == 0)
    ensures c in m ==> First(b) + n <= First(c) || First(c) + m[c] <= First(b)
  {
    var x, y := First(b), First(c);
    assert b == x * 0x1000;
    assert c in m ==> c == y * 0x1000;
  }

  /** Some page of region `c` belongs to table `i`. */
  ghost predicate InTable(m: Regions, c: nat, i: nat)
    requires c in m
  {
    exists r: nat :: PageOf(m, c, r) && r / 1024 == i
  }

  /** Unmapping region `b` does no harm: no table is dropped, or no other region has a page in it. */
  ghost predicate Harmless(m: Regions, p: Pages, b: nat)
    requires b in m
  {
    !Drops(p, First(b), m[b]) || forall c <- m :: c != b ==> !InTable(m, c, First(b) / 1024)
  }

  /** Unmapping a region keeps all others mapped exactly if it is harmless. */
  lemma UnmapBacked(m: Regions, p: Pages, b: nat)
    requires Regular(m) && Backed(m, p) && b in m
    ensures Backed(m - {b}, AfterUnmap(p, First(b), m[b])) <==> Harmless(m, p, b)
  {
    var r, u := m - {b}, AfterUnmap(p, First(b), m[b]);
    var dropped := Drops(p, First(b), m[b]);
    forall c | c in r
      ensures RegionBacked(r, u, c) <==> !(dropped && InTable(m, c, First(b) / 1024))
    {
      assert Distant(m, b, c) && RegionBacked(m, p, c);
      forall q: nat | PageOf(m, c, q) ensures q in u <==> !(dropped && q / 1024 == First(b) / 1024) { }
      assert forall q: nat :: PageOf(r, c, q) <==> PageOf(m, c, q);
    }
  }

  lemma MapBacked(m: Regions, p: Pages, b: nat, n: nat)
    requires Backed(m, p) && b !in m
    ensures Backed(m[b := n], AfterMap(p, First(b), n))
  {
    var r, u := m[b := n], AfterMap(p, First(b), n);
    forall c | c in r ensures RegionBacked(r, u, c) {
      if c != b {
        assert RegionBacked(m, p, c);
        assert forall q: nat :: PageOf(r, c, q) <==> PageOf(m, c, q);
      }
    }
  }

  /** Unmapped pages belong to no region. */
  lemma HoleIsUnclaimed(m: Regions, p: Pages, q: nat, n: nat)
    requires Regular(m) && Backed(m, p) && 0 < n && q * PAGE_SIZE + n * PAGE_SIZE <= MEMORY
    requires forall r :: q <= r < q + n ==> r !in p
    ensures Unclaimed(m, q * PAGE_SIZE, n)
  {
    forall c | c in m ensures q * PAGE_SIZE + n * PAGE_SIZE <= c || c + m[c] * PAGE_SIZE <= q * PAGE_SIZE {
      assert c == First(c) * PAGE_SIZE && RegionBacked(m, p, c);
      var r := if First(c) < q then q else First(c);
      if q < First(c) + m[c] && First(c) < q + n { assert PageOf(m, c, r); }
    }
  }

  // ---------------------------------------------------------------- runs

  /** The pages that are mapped after the calls `cs`. */
  ghost function PagesAfter(m: Regions, p: Pages, cs: seq<PageCall>): Pages
    requires Traced(m, cs, AfterAll(m, cs))
  {
    if cs == [] then p else
      var ds := cs[..|cs| - 1];
      TracedPrefix(m, cs, |cs| - 1);
      AfterCall(AfterAll(m, ds), PagesAfter(m, p, ds), cs[|cs| - 1])
  }

  /** The regions and the pages after the first `k` calls. */
  ghost function RegionsAt(m: Regions, cs: seq<PageCall>, k: nat): Regions
    requires k <= |cs|
  {
    AfterAll(m, cs[..k])
  }

  ghost function PagesAt(m: Regions, p: Pages, cs: seq<PageCall>, k: nat): Pages
    requires k <= |cs| && Traced(m, cs, AfterAll(m, cs))
  {
    TracedPrefix(m, cs, k);
    PagesAfter(m, p, cs[..k])
  }

  ghost predicate BackedAt(m: Regions, p: Pages, cs: seq<PageCall>, k: nat)
    requires k <= |cs| && Traced(m, cs, AfterAll(m, cs))
  {
    Backed(RegionsAt(m, cs, k), PagesAt(m, p, cs, k))
  }

  /** The k-th call is not a release that does harm. */
  ghost predicate HarmlessAt(m: Regions, p: Pages, cs: seq<PageCall>, k: nat)
    requires k < |cs| && Traced(m, cs, AfterAll(m, cs))
  {
    TracedPrefix(m, cs, k);
    cs[k].Unmap? ==> Harmless(RegionsAt(m, cs, k), PagesAt(m, p, cs, k), cs[k].base)
  }

  /** The k-th call does not return a region that ends its table, where line 197 reads behind the directory. */
  ghost predicate FollowedAt(m: Regions, cs: seq<PageCall>, k: nat)
    requires k < |cs| && Traced(m, cs, AfterAll(m, cs))
  {
    TracedPrefix(m, cs, k);
    cs[k].Unmap? ==> First(cs[k].base) % 1024 + RegionsAt(m, cs, k)[cs[k].base] < 1024
  }

  lemma StepAt(m: Regions, p: Pages, cs: seq<PageCall>, k: nat)
    requires k < |cs| && Traced(m, cs, AfterAll(m, cs))
    ensures Proper(RegionsAt(m, cs, k), cs[k])
    ensures RegionsAt(m, cs, k + 1) == After(RegionsAt(m, cs, k), cs[k])
    ensures PagesAt(m, p, cs, k + 1) == AfterCall(RegionsAt(m, cs, k), PagesAt(m, p, cs, k), cs[k])
  {
    TracedPrefix(m, cs, k);
    TracedPrefix(m, cs, k + 1);
    var ds := cs[..k + 1];
    assert ds[..|ds| - 1] == cs[..k] && ds[|ds| - 1] == cs[k];
  }

  lemma {:induction false} RegularAt(m: Regions, cs: seq<PageCall>, k: nat)
    requires Regular(m) && k <= |cs| && Traced(m, cs, AfterAll(m, cs))
    ensures Regular(RegionsAt(m, cs, k))
  {
    if k == 0 {
      assert cs[..0] == [];
    } else {
      RegularAt(m, cs, k - 1);
      StepAt(m, iset{}, cs, k - 1);
      RegularAfter(RegionsAt(m, cs, k - 1), cs[k - 1]);
    }
  }

  /** One call keeps the regions mapped exactly if it does no harm. */
  lemma StepBacked(m: Regions, p: Pages, cs: seq<PageCall>, k: nat)
    requires Regular(m) && k < |cs| && Traced(m, cs, AfterAll(m, cs)) && BackedAt(m, p, cs, k)
    ensures BackedAt(m, p, cs, k + 1) <==> HarmlessAt(m, p, cs, k)
  {
    var mk, pk := RegionsAt(m, cs, k), PagesAt(m, p, cs, k);
    RegularAt(m, cs, k);
    StepAt(m, p, cs, k);
    if cs[k].Map? {
      NewBase(mk, cs[k]);
      MapBacked(mk, pk, cs[k].base, cs[k].pages);
    } else {
      UnmapBacked(mk, pk, cs[k].base);
    }
  }

  lemma NewBase(m: Regions, c: PageCall)
    requires Regular(m) && c.Map? && Proper(m, c)
    ensures c.base !in m
  {
    if c.base in m { UnclaimedPages(m, c.base, c.pages, c.base); }
  }

  lemma LastStep(m: Regions, p: Pages, cs: seq<PageCall>, n: nat)
    requires Regular(m) && n < |cs| && Traced(m, cs, AfterAll(m, cs))
    requires (forall k :: 0 <= k <= n ==> BackedAt(m, p, cs, k)) <==>
      (forall k :: 0 <= k < n ==> HarmlessAt(m, p, cs, k))
    ensures (forall k :: 0 <= k <= n + 1 ==> BackedAt(m, p, cs, k)) <==>
      (forall k :: 0 <= k < n + 1 ==> HarmlessAt(m, p, cs, k))
  {
    if BackedAt(m, p, cs, n) { StepBacked(m, p, cs, n); }
  }

  /** Over any run of calls, all regions stay mapped exactly as long as no release does harm. */
  lemma {:induction false} BackedWhileHarmless(m: Regions, p: Pages, cs: seq<PageCall>, n: nat)
    requires Regular(m) && Backed(m, p) && Traced(m, cs, AfterAll(m, cs)) && n <= |cs|
    requires forall k :: 0 <= k < n ==> FollowedAt(m, cs, k)
    ensures (forall k :: 0 <= k <= n ==> BackedAt(m, p, cs, k)) <==>
      (forall k :: 0 <= k < n ==> HarmlessAt(m, p, cs, k))
  {
    if n == 0 {
      assert cs[..0] == [];
    } else {
      BackedWhileHarmless(m, p, cs, n - 1);
      LastStep(m, p, cs, n - 1);
    }
  }

  /** All regions are mapped after each of the calls. */
  ghost predicate StaysBacked(m: Regions, p: Pages, cs: seq<PageCall>)
    requires Traced(m, cs, AfterAll(m, cs))
  {
    forall k :: 0 <= k <= |cs| ==> BackedAt(m, p, cs, k)
  }

  ghost predicate NoHarm(m: Regions, p: Pages, cs: seq<PageCall>)
    requires Traced(m, cs, AfterAll(m, cs))
  {
    forall k :: 0 <= k < |cs| ==> HarmlessAt(m, p, cs, k)
  }

  ghost predicate Followed(m: Regions, cs: seq<PageCall>)
    requires Traced(m, cs, AfterAll(m, cs))
  {
    forall k :: 0 <= k < |cs| ==> FollowedAt(m, cs, k)
  }

  lemma StaysBackedIffNoHarm(m: Regions, p: Pages, cs: seq<PageCall>)
    requires Regular(m) && Backed(m, p) && Traced(m, cs, AfterAll(m, cs)) && Followed(m, cs)
    ensures StaysBacked(m, p, cs) <==> NoHarm(m, p, cs)
    ensures StaysBacked(m, p, cs) ==> Backed(AfterAll(m, cs), PagesAfter(m, p, cs))
  {
    BackedWhileHarmless(m, p, cs, |cs|);
    if StaysBacked(m, p, cs) {
      assert BackedAt(m, p, cs, |cs|);
      assert cs[..|cs|] == cs;
    }
  }

  /**
   * As after the start: the regions `b` and `c` lie in table 0x301, and the table that line 197 looks at is one of the
   * user's, which do not exist. Returning `b` unmaps pages of `c`.
   */
  lemma ReturnUnmapsOthers(m: Regions, p: Pages, b: nat, c: nat)
    requires Regular(m) && Backed(m, p) && b in m && c in m && b != c
    requires First(b) / 1024 == First(c) / 1024 == 0x301 && First(b) % 1024 + m[b] < 0x300
    requires forall r :: r in p ==> r / 1024 != First(b) % 1024 + m[b]
    ensures !Backed(m - {b}, AfterUnmap(p, First(b), m[b]))
  {
    UnmapBacked(m, p, b);
    assert PageOf(m, c, First(c));
    assert InTable(m, c, First(b) / 1024);
  }
}
