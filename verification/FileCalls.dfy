/** Runs of calls on the handles of files, and what they do to the store of files. */
module FileCalls {
  import opened Basics
  import opened FatSpec

  /** Calls on the handle of a file, by number. */
  datatype Command = Init(f: nat) | Remove(f: nat) | Truncate(f: nat) | Store(f: nat, data: seq<byte>)

  /** The step of the store of files that a call on a handle with cluster `k` is. */
  ghost predicate Performs(c: Command, k: word, op: FileOp) {
    match c
    case Init(_) => op.Create?
    case Remove(_) => op == if k == 0 then Nothing else Delete(k)
    case Truncate(_) => op == if k == 0 then Nothing else Clear(k)
    case Store(_, data) => op == if k == 0 then Nothing else Write(k, data)
  }

  /** The cluster of a handle after a call on it. */
  function NextCluster(k: word, c: Command, op: FileOp): word {
    match c
    case Init(_) => if op.Create? then op.k else k
    case Remove(_) => 0
    case _ => k
  }

  /** The size of a handle after a call on it. */
  function NextSize(n: nat, c: Command): nat {
    if c.Store? then |c.data| else n
  }

  ghost predicate Named(cs: seq<Command>, n: nat) {
    forall c <- cs :: c.f < n
  }

  /** The clusters of all handles after the first `i` calls. */
  ghost function Held(k0: seq<word>, cs: seq<Command>, ops: seq<FileOp>, i: nat): (k: seq<word>)
    requires Named(cs, |k0|) && i <= |ops| <= |cs|
    ensures |k| == |k0|
  {
    if i == 0 then k0 else
      var k, f := Held(k0, cs, ops, i - 1), cs[i - 1].f;
      k[f := NextCluster(k[f], cs[i - 1], ops[i - 1])]
  }

  /** The sizes of all handles after the first `i` calls. */
  ghost function Sizes(n0: seq<nat>, cs: seq<Command>, i: nat): (n: seq<nat>)
    requires Named(cs, |n0|) && i <= |cs|
    ensures |n| == |n0|
  {
    if i == 0 then n0 else
      var n, f := Sizes(n0, cs, i - 1), cs[i - 1].f;
      n[f := NextSize(n[f], cs[i - 1])]
  }

  /** Call `i` is step `i`. */
  ghost predicate PerformedAt(k0: seq<word>, cs: seq<Command>, ops: seq<FileOp>, i: nat)
    requires Named(cs, |k0|) && i < |ops| <= |cs|
  {
    Performs(cs[i], Held(k0, cs, ops, i)[cs[i].f], ops[i])
  }

  /** The steps `ops` are those of the first calls `cs`, one for one. */
  ghost predicate Performed(k0: seq<word>, cs: seq<Command>, ops: seq<FileOp>) {
    Named(cs, |k0|) && |ops| <= |cs| && forall i :: 0 <= i < |ops| ==> PerformedAt(k0, cs, ops, i)
  }

  lemma {:induction false} HeldExtended(k0: seq<word>, cs: seq<Command>, ops: seq<FileOp>, op: FileOp, i: nat)
    requires Named(cs, |k0|) && i <= |ops| < |cs|
    ensures Held(k0, cs, ops + [op], i) == Held(k0, cs, ops, i)
  {
    if i > 0 { HeldExtended(k0, cs, ops, op, i - 1); }
  }

  /** No call. */
  lemma PerformedNone(k0: seq<word>, n0: seq<nat>, cs: seq<Command>)
    requires |k0| == |n0| && Named(cs, |k0|)
    ensures Performed(k0, cs, []) && Held(k0, cs, [], 0) == k0 && Sizes(n0, cs, 0) == n0
  {
  }

  lemma SizesNext(n0: seq<nat>, cs: seq<Command>, i: nat)
    requires Named(cs, |n0|) && i < |cs|
    ensures var c, n := cs[i], Sizes(n0, cs, i); Sizes(n0, cs, i + 1) == n[c.f := NextSize(n[c.f], c)]
  {
  }

  /** One more call. */
  lemma PerformedNext(k0: seq<word>, cs: seq<Command>, ops: seq<FileOp>, op: FileOp)
    requires Performed(k0, cs, ops) && |ops| < |cs|
    requires var c := cs[|ops|]; Performs(c, Held(k0, cs, ops, |ops|)[c.f], op)
    ensures Performed(k0, cs, ops + [op])
    ensures var c, k := cs[|ops|], Held(k0, cs, ops, |ops|);
      Held(k0, cs, ops + [op], |ops| + 1) == k[c.f := NextCluster(k[c.f], c, op)]
  {
    HeldExtended(k0, cs, ops, op, |ops|);
    forall i | 0 <= i < |ops| + 1 ensures PerformedAt(k0, cs, ops + [op], i) {
      HeldExtended(k0, cs, ops, op, i);
      if i < |ops| { assert PerformedAt(k0, cs, ops, i); }
    }
  }

  /** The size of a handle is that of the last data stored through it. */
  lemma {:induction false} SizeStays(n0: seq<nat>, cs: seq<Command>, f: nat, i: nat)
    requires Named(cs, |n0|) && 1 <= i <= |cs| && f < |n0| && cs[0].Store? && cs[0].f == f
    requires forall x :: 0 < x < i ==> cs[x].f != f
    ensures Sizes(n0, cs, i)[f] == |cs[0].data|
  {
    if i > 1 { SizeStays(n0, cs, f, i - 1); }
  }

  /** Every handle is empty or names a file, and no two name the same one. */
  ghost predicate Separate(k: seq<word>, s: Files) {
    && (forall f :: 0 <= f < |k| && k[f] != 0 ==> k[f] in s)
    && (forall f, g :: 0 <= f < g < |k| && k[f] != 0 ==> k[f] != k[g])
  }

  lemma {:induction false} StaySeparate(k0: seq<word>, cs: seq<Command>, ops: seq<FileOp>, h: seq<Files>, i: nat)
    requires Performed(k0, cs, ops) && FileRun(h, ops) && Separate(k0, h[0]) && i <= |ops|
    ensures Separate(Held(k0, cs, ops, i), h[i])
  {
    if i > 0 {
      StaySeparate(k0, cs, ops, h, i - 1);
      assert PerformedAt(k0, cs, ops, i - 1) && FileStep(h[i - 1], ops[i - 1], h[i]);
    }
  }

  lemma StepElsewhere(c: Command, l: word, op: FileOp, s: Files, t: Files, k: word)
    requires Performs(c, l, op) && FileStep(s, op, t) && k in s && l != k
    ensures k in t && t[k] == s[k]
  {
  }

  /** Calls on other handles leave a file and its handle alone. */
  lemma {:induction false} OthersLeaveAlone(
      k0: seq<word>, cs: seq<Command>, ops: seq<FileOp>, h: seq<Files>, f: nat, i: nat, j: nat)
    requires Performed(k0, cs, ops) && FileRun(h, ops) && Separate(k0, h[0]) && f < |k0| && i <= j <= |ops|
    requires Held(k0, cs, ops, i)[f] != 0 && forall x :: i <= x < j ==> cs[x].f != f
    ensures var k := Held(k0, cs, ops, i)[f];
      Held(k0, cs, ops, j)[f] == k && k in h[i] && k in h[j] && h[j][k] == h[i][k]
    decreases j - i
  {
    hide Performs, FileStep;
    StaySeparate(k0, cs, ops, h, i);
    if i < j {
      OthersLeaveAlone(k0, cs, ops, h, f, i, j - 1);
      StaySeparate(k0, cs, ops, h, j - 1);
      assert PerformedAt(k0, cs, ops, j - 1);
      var k, l := Held(k0, cs, ops, i)[f], Held(k0, cs, ops, j - 1)[cs[j - 1].f];
      assert l != k;
      StepElsewhere(cs[j - 1], l, ops[j - 1], h[j - 1], h[j], k);
    }
  }

  /**
   * What a call other than a store does to its file: a new file has one cluster, that of the handle; a removed one is
   * gone, and the handle is empty; a cut one keeps its first sector. Through an empty handle nothing is removed or cut.
   */
  lemma CallIs(k0: seq<word>, cs: seq<Command>, ops: seq<FileOp>, h: seq<Files>, i: nat)
    requires Performed(k0, cs, ops) && FileRun(h, ops) && i < |ops|
    ensures var f := cs[i].f;
      var k, n, s, t := Held(k0, cs, ops, i)[f], Held(k0, cs, ops, i + 1)[f], h[i], h[i + 1];
      match cs[i]
      case Init(_) => n !in s && n in t && |t[n]| == 512 && t - {n} == s
      case Remove(_) => n == 0 && (if k == 0 then t == s else k in s && k !in t && t == s - {k})
      case Truncate(_) => n == k && (if k == 0 then t == s else k in s && |s[k]| >= 512 && t == s[k := s[k][..512]])
      case Store(_, data) => n == k && (k == 0 ==> t == s)
  {
    assert PerformedAt(k0, cs, ops, i) && FileStep(h[i], ops[i], h[i + 1]);
    if cs[i].Init? { assert h[i + 1] - {ops[i].k} == h[i]; }
  }

  lemma StoreStep(k0: seq<word>, cs: seq<Command>, ops: seq<FileOp>, h: seq<Files>, i: nat)
    requires Performed(k0, cs, ops) && FileRun(h, ops) && i < |ops| && cs[i].Store?
    requires Held(k0, cs, ops, i)[cs[i].f] != 0
    ensures var k := Held(k0, cs, ops, i)[cs[i].f];
      && Held(k0, cs, ops, i + 1)[cs[i].f] == k && k in h[i] && k in h[i + 1]
      && h[i + 1][k] == Overwritten(h[i][k], cs[i].data)
  {
    assert PerformedAt(k0, cs, ops, i) && FileStep(h[i], ops[i], h[i + 1]);
  }

  /**
   * After any run, what a call stored is read back through its handle, if no later call was on the handle, exactly if
   * the file's chain of `n` clusters had the right length when it was stored.
   */
  lemma StoreSurvives(k0: seq<word>, cs: seq<Command>, ops: seq<FileOp>, h: seq<Files>, i: nat, j: nat, n: nat)
    requires Performed(k0, cs, ops) && FileRun(h, ops) && Separate(k0, h[0])
    requires i < j <= |ops| && cs[i].Store? && cs[i].data != [] && forall x :: i < x < j ==> cs[x].f != cs[i].f
    requires var k := Held(k0, cs, ops, i)[cs[i].f]; k != 0 && k in h[i] && |h[i][k]| == 512 * n && n > 0
    ensures var k, data := Held(k0, cs, ops, i)[cs[i].f], cs[i].data;
      && Held(k0, cs, ops, j)[cs[i].f] == k && k in h[j] && h[j][k] == Overwritten(h[i][k], data)
      && (ReadsBack(h[j][k], data) <==> n == Clusters(|data|))
      && (n == Clusters(|data|) ==> h[j][k] == ZeroFilled(data))
  {
    hide Overwritten, ReadsBack, Separate;
    var k, data := Held(k0, cs, ops, i)[cs[i].f], cs[i].data;
    StoreStep(k0, cs, ops, h, i);
    OthersLeaveAlone(k0, cs, ops, h, cs[i].f, i + 1, j);
    RoundTrip(h[i][k], data, n);
    if n == Clusters(|data|) { ExactlyFilled(h[i][k], data); }
  }

  /** A run that starts with a call that stores `data`, and leaves the handle alone from then on. */
  lemma StoredFirst(k0: seq<word>, n0: seq<nat>, cs: seq<Command>, ops: seq<FileOp>, h: seq<Files>, n: nat)
    requires Performed(k0, cs, ops) && FileRun(h, ops) && Separate(k0, h[0]) && |n0| == |k0|
    requires 0 < |ops| && cs[0].Store? && cs[0].data != [] && forall x :: 0 < x < |ops| ==> cs[x].f != cs[0].f
    requires var k := k0[cs[0].f]; k != 0 && k in h[0] && |h[0][k]| == 512 * n && n > 0
    ensures var k, data := k0[cs[0].f], cs[0].data;
      && Held(k0, cs, ops, |ops|)[cs[0].f] == k && Sizes(n0, cs, |ops|)[cs[0].f] == |data|
      && k in h[|ops|] && h[|ops|][k] == Overwritten(h[0][k], data)
      && (n == Clusters(|data|) ==> ReadsBack(h[|ops|][k], data) && h[|ops|][k] == ZeroFilled(data))
  {
    SizeStays(n0, cs, cs[0].f, |ops|);
    StoreSurvives(k0, cs, ops, h, 0, |ops|, n);
  }

  /** So after a start without long files, what is stored is read back exactly if it fits one sector. */
  lemma OnlyShortStoresReadBack(k0: seq<word>, cs: seq<Command>, ops: seq<FileOp>, h: seq<Files>, i: nat, j: nat)
    requires Performed(k0, cs, ops) && FileRun(h, ops) && Separate(k0, h[0]) && OneCluster(h[0])
    requires i < j <= |ops| && cs[i].Store? && cs[i].data != [] && forall x :: i < x < j ==> cs[x].f != cs[i].f
    requires Held(k0, cs, ops, i)[cs[i].f] != 0
    ensures var k, data := Held(k0, cs, ops, i)[cs[i].f], cs[i].data;
      Held(k0, cs, ops, j)[cs[i].f] == k && k in h[j] && (ReadsBack(h[j][k], data) <==> |data| <= 512)
  {
    StaySeparate(k0, cs, ops, h, i);
    FilesStayShort(h, ops, i);
    StoreSurvives(k0, cs, ops, h, i, j, 1);
  }
}
