/** What a client may rely on: an allocator is a store of independent byte sequences. */
module HeapSpec {
  import opened Basics

  /** The contents of every payload in use, by the pointer the client holds. */
  type Store = imap<nat, seq<byte>>

  datatype Op = Malloc(n: nat) | Free(p: nat) | Realloc(p: nat, n: nat) | Write(p: nat, i: nat, b: byte)

  /** The number of bytes an operation asks for. */
  function Request(op: Op): nat {
    match op
    case Malloc(n) => n
    case Realloc(_, n) => n
    case Free(_) => 0
    case Write(_, _, _) => 0
  }

  /** The operation asks kmalloc for memory: for some bytes, and not for as many as the payload has already. */
  ghost predicate Allocates(op: Op, s: Store) {
    match op
    case Malloc(n) => n > 0
    case Realloc(p, n) => n > 0 && (p == 0 || p in s) && (p != 0 ==> |s[p]| != n)
    case Free(_) => false
    case Write(_, _, _) => false
  }

  function Min(a: nat, b: nat): nat {
    if a < b then a else b
  }

  /** `p` is new and refers to `n` bytes; every other payload is as before. */
  ghost predicate Allocated(s: Store, t: Store, p: nat, n: nat) {
    p !in s && p in t && |t[p]| == n && t == s[p := t[p]]
  }

  /** The payload of `p` is moved to `q`, cut or extended to `n` bytes. */
  ghost predicate Moved(s: Store, t: Store, p: nat, q: nat, n: nat) {
    && p in s && q in t && |t[q]| == n
    && t[q][..Min(|s[p]|, n)] == s[p][..Min(|s[p]|, n)]
    && (if |s[p]| == n then q == p else q !in s)
    && t == (s - {p})[q := t[q]]
  }

  /** What fits of the payload of `p` is copied to `q`, and `p` is freed. */
  ghost predicate Replaced(s: Store, t: Store, p: nat, q: nat, n: nat) {
    && p in s && q in s && |s[q]| == n
    && (var k := Min(|s[p]|, n); t == s[q := s[p][..k] + s[q][k..]] - {p})
  }

  /** Allocating, copying what fits and freeing the old payload moves it. */
  lemma MovedByCopy(s: Store, s1: Store, t: Store, p: nat, q: nat, n: nat)
    requires p in s && |s[p]| != n && Allocated(s, s1, q, n) && Replaced(s1, t, p, q, n)
    ensures Moved(s, t, p, q, n)
  {
  }

  /** One step of the abstract allocator. An operation on a pointer that is not in use does nothing. */
  ghost predicate Step(s: Store, op: Op, t: Store) {
    match op
    case Malloc(n) => if n == 0 then t == s else exists p :: Allocated(s, t, p, n)
    case Free(p) => t == s - {p}
    case Realloc(p, n) =>
      if p !in s then (if p == 0 && n > 0 then exists q :: Allocated(s, t, q, n) else t == s)
      else if n == 0 then t == s - {p}
      else exists q :: Moved(s, t, p, q, n)
    case Write(p, i, b) => t == if p in s && i < |s[p]| then s[p := s[p][i := b]] else s
  }

  ghost predicate Steps(h: seq<Store>, ops: seq<Op>) {
    |h| == |ops| + 1 && forall i :: 0 <= i < |ops| ==> Step(h[i], ops[i], h[i + 1])
  }

  lemma StepsExtend(h: seq<Store>, ops: seq<Op>, op: Op, t: Store)
    requires Steps(h, ops) && Step(h[|ops|], op, t)
    ensures Steps(h + [t], ops + [op])
  {
    var g := h + [t];
    forall i | 0 <= i < |ops| + 1 ensures Step(g[i], (ops + [op])[i], g[i + 1]) {
      if i < |ops| { assert Step(h[i], ops[i], h[i + 1]); }
    }
  }

  /** A payload that is resized keeps its bytes, as many as fit, and no other payload changes. */
  lemma ReallocKeeps(s: Store, p: nat, n: nat, t: Store) returns (q: nat)
    requires Step(s, Realloc(p, n), t) && p in s && n > 0
    ensures q in t && |t[q]| == n && forall i :: 0 <= i < n && i < |s[p]| ==> t[q][i] == s[p][i]
    ensures forall r: nat :: r != p && r in s ==> r in t && t[r] == s[r]
    ensures (|s[p]| == n ==> q == p) && (q != p ==> q !in s && p !in t)
  {
    q :| Moved(s, t, p, q, n);
    forall i | 0 <= i < n && i < |s[p]| ensures t[q][i] == s[p][i] {
      assert t[q][..Min(|s[p]|, n)][i] == s[p][..Min(|s[p]|, n)][i];
    }
  }

  ghost predicate Names(op: Op, p: nat) {
    match op
    case Malloc(_) => false
    case Free(q) => p == q
    case Realloc(q, _) => p == q
    case Write(q, _, _) => p == q
  }

  /** A step that does not name a payload in use leaves it in use with the same bytes. */
  lemma StepKeeps(s: Store, op: Op, t: Store, p: nat)
    requires Step(s, op, t) && p in s && !Names(op, p)
    ensures p in t && t[p] == s[p]
  {
  }

  /** Over a whole run a payload changes only through operations that name its pointer. */
  lemma {:induction false} RunKeeps(h: seq<Store>, ops: seq<Op>, p: nat, i: nat, j: nat)
    requires Steps(h, ops) && i <= j <= |ops| && p in h[i]
    requires forall k :: i <= k < j ==> !Names(ops[k], p)
    ensures p in h[j] && h[j][p] == h[i][p]
    decreases j - i
  {
    if i < j {
      StepKeeps(h[i], ops[i], h[i + 1], p);
      RunKeeps(h, ops, p, i + 1, j);
    }
  }

  /** A byte written through a pointer is read back after any run that does not name the pointer again. */
  lemma WriteReadsBack(h: seq<Store>, ops: seq<Op>, k: nat, j: nat)
    requires Steps(h, ops) && k < j <= |ops| && ops[k].Write?
    requires ops[k].p in h[k] && ops[k].i < |h[k][ops[k].p]|
    requires forall m :: k < m < j ==> !Names(ops[m], ops[k].p)
    ensures ops[k].p in h[j] && |h[j][ops[k].p]| == |h[k][ops[k].p]| && h[j][ops[k].p][ops[k].i] == ops[k].b
  {
    RunKeeps(h, ops, ops[k].p, k + 1, j);
    assert Step(h[k], ops[k], h[k + 1]);
  }
}
