/** The on-disk table of clusters, the chains it describes, and files as byte sequences. */
module FatSpec {
  import opened Basics
  import opened Sequences

  type word = w: int | 0 <= w < 65536
  type sector = s: seq<byte> | |s| == 512 witness seq(512, i => 0)

  /** Marks the last cluster of a chain; as an index it lies beyond the table. */
  const EOC: word := 65528
  /** The table has 255 sectors of 256 entries, from sector 3 on; data clusters start at 390. */
  const ENTRIES := 65280
  const DATA_START := 390
  const SECTORS := 65536
  /** The entries that a 16-bit cluster number can name; those from ENTRIES on are memory behind the table. */
  const WORDS := 65536

  // ---------------------------------------------------------------- the table on disk

  function WordAt(s: sector, j: nat): word
    requires j < 256
  {
    s[2 * j] as int + 256 * (s[2 * j + 1] as int)
  }

  /** A sector that holds 256 words, low byte first. */
  function Pack(ws: seq<word>): sector
    requires |ws| == 256
  {
    seq(512, i requires 0 <= i < 512 => (if i % 2 == 0 then ws[i / 2] % 256 else ws[i / 2] / 256) as byte)
  }

  lemma PackWordAt(ws: seq<word>, j: nat)
    requires |ws| == 256 && j < 256
    ensures WordAt(Pack(ws), j) == ws[j]
  {
    assert (2 * j) % 2 == 0 && (2 * j) / 2 == j && (2 * j + 1) % 2 == 1 && (2 * j + 1) / 2 == j;
  }

  lemma WordsDetermine(s: sector, t: sector)
    requires forall j :: 0 <= j < 256 ==> WordAt(s, j) == WordAt(t, j)
    ensures s == t
  {
    forall i | 0 <= i < 512 ensures s[i] == t[i] {
      var j := i / 2;
      assert WordAt(s, j) == WordAt(t, j);
      assert i == 2 * j || i == 2 * j + 1;
    }
  }

  ghost function EntryOf(d: seq<sector>, i: nat): word
    requires |d| == SECTORS && i < ENTRIES
  {
    WordAt(d[3 + i / 256], i % 256)
  }

  ghost function TableOf(d: seq<sector>): seq<word>
    requires |d| == SECTORS
  {
    seq(ENTRIES, i requires 0 <= i < ENTRIES => EntryOf(d, i))
  }

  /** Only the sectors of the table matter. */
  lemma TableFrame(d: seq<sector>, e: seq<sector>)
    requires |d| == |e| == SECTORS && forall k :: 3 <= k < 258 ==> d[k] == e[k]
    ensures TableOf(d) == TableOf(e)
  {
    forall i | 0 <= i < ENTRIES ensures TableOf(d)[i] == TableOf(e)[i] {
      assert EntryOf(d, i) == EntryOf(e, i);
    }
  }

  /** `e` is `d` with the words of `t` stored in the sectors of the table. */
  ghost predicate Stored(d: seq<sector>, e: seq<sector>, t: seq<word>) {
    && |d| == |e| == SECTORS && |t| == ENTRIES
    && (forall k {:trigger e[k]} :: 3 <= k < 258 ==> e[k] == Pack(t[256 * (k - 3)..256 * (k - 2)]))
    && DataKept(d, e)
  }

  lemma StoredEntry(d: seq<sector>, e: seq<sector>, t: seq<word>, i: nat)
    requires Stored(d, e, t) && i < ENTRIES
    ensures EntryOf(e, i) == t[i]
  {
    var k, j := i / 256, i % 256;
    assert i == 256 * k + j && k < 255;
    var ws := t[256 * k..256 * (k + 1)];
    assert e[3 + k] == Pack(ws) && ws[j] == t[i];
    PackWordAt(ws, j);
  }

  /** What is stored is what is read. */
  lemma StoredTable(d: seq<sector>, e: seq<sector>, t: seq<word>)
    requires Stored(d, e, t)
    ensures TableOf(e) == t
  {
    forall i | 0 <= i < ENTRIES ensures TableOf(e)[i] == t[i] { StoredEntry(d, e, t, i); }
  }

  /** Storing the table that is already there changes nothing. */
  lemma StoredAgain(d: seq<sector>, e: seq<sector>, t: seq<word>)
    requires Stored(d, e, t) && t == TableOf(d)
    ensures e == d
  {
    StoredTable(d, e, t);
    forall k | 3 <= k < 258 ensures e[k] == d[k] {
      forall j | 0 <= j < 256 ensures WordAt(e[k], j) == WordAt(d[k], j) {
        var i := 256 * (k - 3) + j;
        assert i / 256 == k - 3 && i % 256 == j;
        assert EntryOf(e, i) == TableOf(e)[i] == TableOf(d)[i] == EntryOf(d, i);
      }
      WordsDetermine(e[k], d[k]);
    }
  }

  /** Byte `p` of the table's sectors is a byte of entry p / 2, the low one at even places. */
  lemma TableBytes(d: seq<sector>, p: nat)
    requires |d| == SECTORS && p < 2 * ENTRIES
    ensures d[3 + p / 512][p % 512] as int == TableOf(d)[p / 2] / (if p % 2 == 0 then 1 else 256) % 256
  {
    var i := p / 2;
    assert i / 256 == p / 512 && 2 * (i % 256) == p % 512 - p % 2;
    assert TableOf(d)[i] == EntryOf(d, i);
  }

  // ---------------------------------------------------------------- chains

  /** Entry `c[i]` of the table refers to the next cluster of the chain, or ends it. */
  ghost predicate Linked(t: seq<word>, c: seq<word>, i: nat)
    requires |t| == ENTRIES && i < |c|
  {
    DATA_START <= c[i] < ENTRIES && t[c[i]] == if i + 1 < |c| then c[i + 1] else EOC
  }

  ghost predicate Chain(t: seq<word>, c: seq<word>)
    requires |t| == ENTRIES
  {
    |c| > 0 && forall i {:trigger Linked(t, c, i)} :: 0 <= i < |c| ==> Linked(t, c, i)
  }

  /** A chain that ends cannot meet itself. */
  lemma {:induction false} ChainIsAcyclic(t: seq<word>, c: seq<word>, i: nat, j: nat)
    requires |t| == ENTRIES && Chain(t, c) && i < j < |c|
    ensures c[i] != c[j]
    decreases |c| - j
  {
    assert Linked(t, c, i) && Linked(t, c, j) && Linked(t, c, i + 1);
    if j + 1 < |c| { ChainIsAcyclic(t, c, i + 1, j + 1); }
  }

  lemma ChainDistinct(t: seq<word>, c: seq<word>)
    requires |t| == ENTRIES && Chain(t, c)
    ensures Distinct(c)
  {
    forall i, j | 0 <= i < j < |c| ensures c[i] != c[j] { ChainIsAcyclic(t, c, i, j); }
  }

  /** The first cluster determines the chain. */
  lemma {:induction false} ChainIsUnique(t: seq<word>, b: seq<word>, c: seq<word>, i: nat)
    requires |t| == ENTRIES && Chain(t, b) && Chain(t, c) && b[0] == c[0] && i < |b|
    ensures i < |c| && b[i] == c[i] && (i + 1 == |b| ==> b == c)
  {
    if i > 0 {
      ChainIsUnique(t, b, c, i - 1);
      assert Linked(t, b, i - 1) && Linked(t, c, i - 1) && Linked(t, b, i);
    }
    if i + 1 == |b| {
      assert Linked(t, b, i) && Linked(t, c, i);
      assert i + 1 < |c| ==> Linked(t, c, i + 1);
      forall j | 0 <= j < |b| ensures b[j] == c[j] {
        if j < i { ChainIsUnique(t, b, c, j); }
      }
    }
  }

  // ---------------------------------------------------------------- ownership

  /** The chains of all files, by first cluster. */
  type Chains = map<word, seq<word>>

  ghost predicate Covered(m: Chains, i: word) {
    exists k :: k in m && i in m[k]
  }

  ghost predicate Apart(m: Chains, k: word, l: word)
    requires k in m && l in m
  {
    k != l ==> forall x <- m[k] :: x !in m[l]
  }

  ghost predicate Owns(t: seq<word>, m: Chains, k: word)
    requires |t| == ENTRIES && k in m
  {
    Chain(t, m[k]) && m[k][0] == k
  }

  ghost predicate Exact(t: seq<word>, m: Chains, i: word)
    requires |t| == ENTRIES && i < ENTRIES
  {
    t[i] != 0 <==> Covered(m, i)
  }

  /** Chains are well formed and pairwise disjoint, and their union is exactly the entries in use. */
  ghost predicate Owned(t: seq<word>, m: Chains) {
    && |t| == ENTRIES
    && (forall k {:trigger Owns(t, m, k)} :: k in m ==> Owns(t, m, k))
    && (forall k, l {:trigger Apart(m, k, l)} :: k in m && l in m ==> Apart(m, k, l))
    && (forall i {:trigger Exact(t, m, i)} :: DATA_START <= i < ENTRIES ==> Exact(t, m, i))
  }

  /** `u` agrees with `t` on the clusters of a chain that is well formed in `t`. */
  lemma ChainFrame(t: seq<word>, u: seq<word>, c: seq<word>)
    requires |t| == |u| == ENTRIES && Chain(t, c)
    requires forall i <- c :: i < ENTRIES ==> u[i] == t[i]
    ensures Chain(u, c)
  {
    forall i | 0 <= i < |c| ensures Linked(u, c, i) { assert Linked(t, c, i) && c[i] in c; }
  }

  /** The first cluster of a chain is a data cluster in use. */
  lemma InUse(t: seq<word>, m: Chains, k: word)
    requires Owned(t, m) && k in m
    ensures DATA_START <= k < ENTRIES && t[k] != 0
  {
    assert Owns(t, m, k) && Linked(t, m[k], 0);
    assert |m[k]| > 1 ==> Linked(t, m[k], 1);
  }

  /** A table whose data entries are all free holds no chains, and that is the only such table. */
  lemma BlankIsOwned(t: seq<word>)
    requires |t| == ENTRIES
    ensures Owned(t, map[]) <==> forall i :: DATA_START <= i < ENTRIES ==> t[i] == 0
  {
    var m: Chains := map[];
    forall i: word | i < ENTRIES ensures !Covered(m, i) && (Exact(t, m, i) <==> t[i] == 0) { }
    if Owned(t, m) {
      forall i | DATA_START <= i < ENTRIES ensures t[i] == 0 { assert Exact(t, m, i); }
    }
  }

  lemma InitKeeps(t: seq<word>, m: Chains, c: word)
    requires Owned(t, m) && DATA_START <= c < ENTRIES && t[c] == 0
    ensures c !in m && Owned(t[c := EOC], m[c := [c]])
  {
    var u, n := t[c := EOC], m[c := [c]];
    assert Exact(t, m, c);
    if c in m { InUse(t, m, c); }
    forall k | k in n ensures Owns(u, n, k) {
      if k == c {
        assert Linked(u, n[k], 0);
      } else {
        assert Owns(t, m, k);
        ChainFrame(t, u, m[k]);
      }
    }
    forall k, l | k in n && l in n ensures Apart(n, k, l) {
      if k in m && l in m { assert Apart(m, k, l); }
    }
    forall i | DATA_START <= i < ENTRIES ensures Exact(u, n, i) {
      assert Exact(t, m, i);
      CoveredUpdate(m, c, i);
    }
  }

  lemma CoveredUpdate(m: Chains, c: word, i: word)
    requires c !in m
    ensures Covered(m[c := [c]], i) <==> Covered(m, i) || i == c
  {
    var n := m[c := [c]];
    assert n[c] == [c];
    if Covered(m, i) {
      var k :| k in m && i in m[k];
      assert k in n && i in n[k];
    }
  }

  function Zeroed(t: seq<word>, c: seq<word>): (u: seq<word>)
    ensures |u| == |t|
  {
    seq(|t|, i requires 0 <= i < |t| => if i in c then 0 else t[i])
  }

  lemma DeleteKeeps(t: seq<word>, m: Chains, k: word)
    requires Owned(t, m) && k in m
    ensures Owned(Zeroed(t, m[k]), m - {k})
  {
    var u, n := Zeroed(t, m[k]), m - {k};
    forall l | l in n ensures Owns(u, n, l) {
      assert Owns(t, m, l) && Apart(m, l, k);
      ChainFrame(t, u, m[l]);
    }
    forall j, l | j in n && l in n ensures Apart(n, j, l) { assert Apart(m, j, l); }
    forall i | DATA_START <= i < ENTRIES ensures Exact(u, n, i) {
      assert Exact(t, m, i);
      CoveredRemove(t, m, k, i);
    }
  }

  lemma CoveredRemove(t: seq<word>, m: Chains, k: word, i: word)
    requires Owned(t, m) && k in m
    ensures Covered(m - {k}, i) <==> Covered(m, i) && i !in m[k]
  {
    var n := m - {k};
    if Covered(n, i) {
      var l :| l in n && i in n[l];
      assert Apart(m, l, k);
      assert l in m && i in m[l];
    }
    if Covered(m, i) && i !in m[k] {
      var l :| l in m && i in m[l];
      assert l in n && i in n[l];
    }
  }

  /** Clearing frees all clusters and takes the first one back. */
  lemma ClearKeeps(t: seq<word>, m: Chains, k: word)
    requires Owned(t, m) && k in m
    ensures k < ENTRIES && Owned(Zeroed(t, m[k])[k := EOC], m[k := [k]])
  {
    InUse(t, m, k);
    assert Owns(t, m, k);
    DeleteKeeps(t, m, k);
    InitKeeps(Zeroed(t, m[k]), m - {k}, k);
    assert (m - {k})[k := [k]] == m[k := [k]];
  }

  // ---------------------------------------------------------------- file contents

  /** The bytes of a file: the sectors of its chain, one after the other. */
  ghost function Content(d: seq<sector>, c: seq<word>): (b: seq<byte>)
    requires |d| == SECTORS
    ensures |b| == 512 * |c|
  {
    seq(512 * |c|, p requires 0 <= p < 512 * |c| => d[c[p / 512]][p % 512])
  }

  /** The number of clusters that hold `size` bytes. */
  function Clusters(size: nat): (n: nat)
    ensures 512 * (n - 1) < size <= 512 * n
  {
    (size + 511) / 512
  }

  /** Byte `p` of what is stored for `data`, whose last sector is filled up with zeros. */
  function Padded(data: seq<byte>, p: nat): byte {
    if p < |data| then data[p] else 0
  }

  /** Sector `i` of `data`. */
  function Filled(data: seq<byte>, i: nat): sector {
    var s: seq<byte> := seq(512, o requires 0 <= o < 512 => Padded(data, 512 * i + o));
    s
  }

  /** Writing covers whole sectors from the start; what does not fit the chain is lost. */
  function Overwritten(before: seq<byte>, data: seq<byte>): (b: seq<byte>)
    ensures |b| == |before|
  {
    seq(|before|, p requires 0 <= p < |before| => if p < 512 * Clusters(|data|) then Padded(data, p) else before[p])
  }

  /** Writing gives the data, zeros up to the end of its last sector, and the old bytes behind that. */
  lemma OverwrittenIs(before: seq<byte>, data: seq<byte>)
    ensures var b := Overwritten(before, data);
      && (forall p :: 0 <= p < |before| && p < |data| ==> b[p] == data[p])
      && (forall p :: |data| <= p < |before| && p < 512 * Clusters(|data|) ==> b[p] == 0)
      && (forall p :: 512 * Clusters(|data|) <= p < |before| ==> b[p] == before[p])
  {
  }

  /** `data`, and zeros up to the end of its last sector. */
  function ZeroFilled(data: seq<byte>): seq<byte> {
    data + seq(512 * Clusters(|data|) - |data|, i => 0)
  }

  /** A file whose chain has the right length holds exactly the data, filled up with zeros. */
  lemma ExactlyFilled(before: seq<byte>, data: seq<byte>)
    requires |before| == 512 * Clusters(|data|)
    ensures Overwritten(before, data) == ZeroFilled(data)
  {
    OverwrittenIs(before, data);
  }

  /** Reading such a file gives all of it. */
  lemma ReadExactly(data: seq<byte>, stale: seq<byte>)
    requires data != [] && |stale| == 512 * Clusters(|data|)
    ensures ReadOf(ZeroFilled(data), |data|, stale) == Bytes(ZeroFilled(data))
  {
    assert stale[|ZeroFilled(data)|..] == [];
  }

  /** The stray last sector of write_file_data: it is written to sector EOC when the chain is too short. */
  ghost predicate Strays(c: seq<word>, data: seq<byte>) {
    |data| % 512 != 0 && |c| <= |data| / 512
  }

  /** The sector that write_file_data fills for the rest of `data` after `n` whole sectors. */
  function Remainder(data: seq<byte>, n: nat): sector
    requires n <= |data| / 512
  {
    var r := |data| % 512;
    data[512 * n..512 * n + r] + seq(512 - r, i => 0)
  }

  lemma LastSector(data: seq<byte>)
    ensures Remainder(data, |data| / 512) == Filled(data, |data| / 512)
  {
  }

  lemma WholeSector(data: seq<byte>, n: nat)
    requires 512 * (n + 1) <= |data|
    ensures Filled(data, n) == data[512 * n..512 * n + 512]
  {
    var s := data[512 * n..512 * n + 512];
    forall o | 0 <= o < 512 ensures Filled(data, n)[o] == s[o] {
      assert Filled(data, n)[o] == Padded(data, 512 * n + o) == data[512 * n + o];
    }
    assert Filled(data, n) == s;
  }

  /** `e` is `d` after `data` was written along the chain `c`. */
  ghost predicate Written(d: seq<sector>, e: seq<sector>, c: seq<word>, data: seq<byte>) {
    && |d| == |e| == SECTORS
    && (forall i {:trigger c[i]} :: 0 <= i < |c| && 512 * i < |data| ==> e[c[i]] == Filled(data, i))
    && (forall i {:trigger c[i]} :: 0 <= i < |c| && 512 * i >= |data| ==> e[c[i]] == d[c[i]])
    && (Strays(c, data) ==> e[EOC] == Remainder(data, |c|))
    && (forall k: word {:trigger e[k]} :: k !in c && !(k == EOC && Strays(c, data)) ==> e[k] == d[k])
  }

  /** Whole sectors along the chain, then the remainder, is a write. */
  lemma WrittenInSteps(d: seq<sector>, f: seq<sector>, e: seq<sector>, c: seq<word>, data: seq<byte>, n: nat)
    requires |d| == |f| == |e| == SECTORS && Distinct(c) && forall k <- c :: k < ENTRIES
    requires n == if |data| / 512 <= |c| then |data| / 512 else |c|
    requires forall j :: 0 <= j < n ==> f[c[j]] == Filled(data, j)
    requires forall k: word :: k !in c[..n] ==> f[k] == d[k]
    requires var last := if n < |c| then c[n] else EOC;
      e == if |data| % 512 != 0 then f[last := Remainder(data, n)] else f
    ensures Written(d, e, c, data)
  {
    var last := if n < |c| then c[n] else EOC;
    assert last == EOC ==> last !in c;
    forall j | 0 <= j < n ensures c[j] != last { assert c[j] in c; }
    LastSector(data);
    forall i | 0 <= i < |c| && 512 * i < |data| ensures e[c[i]] == Filled(data, i) {
      assert i < n || (i == n && |data| % 512 != 0);
    }
    forall i | 0 <= i < |c| && 512 * i >= |data| ensures e[c[i]] == d[c[i]] {
      assert i >= n && (i == n ==> |data| % 512 == 0);
      assert c[i] !in c[..n];
    }
  }

  /** The disk, the next cluster and the number of sectors written by the loop of write_file_data. */
  datatype Walk = Walk(disk: seq<sector>, cluster: word, n: nat)

  /** Whole sectors of `data` from number `j` on go to `k` and on along the entries, until EOC (lines 557-568). */
  function Walked(d: seq<sector>, fat: seq<word>, k: word, data: seq<byte>, j: nat): (w: Walk)
    requires |d| == SECTORS && |fat| == WORDS && 512 * (j + 1) <= |data|
    ensures |w.disk| == SECTORS && 512 * w.n <= |data|
    decreases |data| - 512 * j
  {
    var e := d[k := Filled(data, j)];
    if fat[k] != EOC && 512 * (j + 2) <= |data| then Walked(e, fat, fat[k], data, j + 1) else Walk(e, fat[k], j + 1)
  }

  /** What write_file_data makes of the disk, wherever the cluster `k` of the file leads. */
  function Spilled(d: seq<sector>, fat: seq<word>, k: word, data: seq<byte>): (e: seq<sector>)
    requires |d| == SECTORS && |fat| == WORDS
    ensures |e| == SECTORS
  {
    var w := if |data| < 512 then Walk(d, k, 0) else Walked(d, fat, k, data, 0);
    if |data| % 512 == 0 then w.disk else w.disk[w.cluster := Remainder(data, w.n)]
  }

  function Shorter(a: int, b: int): int {
    if a < b then a else b
  }

  lemma WalkedOnce(d: seq<sector>, fat: seq<word>, k: word, data: seq<byte>, j: nat)
    requires |d| == SECTORS && |fat| == WORDS && 512 * (j + 1) <= |data|
    ensures var e := d[k := Filled(data, j)];
      Walked(d, fat, k, data, j) ==
        if fat[k] != EOC && 512 * (j + 2) <= |data| then Walked(e, fat, fat[k], data, j + 1) else Walk(e, fat[k], j + 1)
  {
  }

  /** Along a chain each cluster gets one sector; the walk stops where the data or the chain ends. */
  lemma {:induction false} WalkedAlong(d: seq<sector>, fat: seq<word>, c: seq<word>, data: seq<byte>, j: nat, o: nat)
    requires |d| == SECTORS && |fat| == WORDS && Chain(fat[..ENTRIES], c) && Distinct(c)
    requires j < |c| && 512 * (j + o + 1) <= |data|
    ensures var w, n := Walked(d, fat, c[j], data, j + o), Shorter(|data| / 512 - o, |c|);
      && w.n == n + o && w.cluster == (if n < |c| then c[n] else EOC)
      && (forall i :: j <= i < n ==> w.disk[c[i]] == Filled(data, i + o))
      && (forall k: word :: k !in c[j..n] ==> w.disk[k] == d[k])
    decreases |c| - j
  {
    var n := Shorter(|data| / 512 - o, |c|);
    var e := d[c[j] := Filled(data, j + o)];
    assert Linked(fat[..ENTRIES], c, j) && (j + 1 < |c| ==> Linked(fat[..ENTRIES], c, j + 1));
    WalkedOnce(d, fat, c[j], data, j + o);
    hide Walked, Filled, Chain, Linked;
    if fat[c[j]] != EOC && 512 * (j + o + 2) <= |data| {
      WalkedAlong(e, fat, c, data, j + 1, o);
      assert c[j..n] == [c[j]] + c[j + 1..n];
    } else {
      assert n == j + 1 && c[j..n] == [c[j]];
    }
  }

  /** From the first cluster of a chain write_file_data writes along the chain. */
  lemma SpilledIsWritten(d: seq<sector>, fat: seq<word>, c: seq<word>, data: seq<byte>)
    requires |d| == SECTORS && |fat| == WORDS && Chain(fat[..ENTRIES], c)
    ensures Written(d, Spilled(d, fat, c[0], data), c, data)
  {
    ChainDistinct(fat[..ENTRIES], c);
    ChainInTable(fat[..ENTRIES], c);
    if |data| >= 512 { WalkedAlong(d, fat, c, data, 0, 0); }
    var w := if |data| < 512 then Walk(d, c[0], 0) else Walked(d, fat, c[0], data, 0);
    assert c[0..w.n] == c[..w.n];
    WrittenInSteps(d, w.disk, Spilled(d, fat, c[0], data), c, data, w.n);
  }

  lemma ChainTail(t: seq<word>, c: seq<word>, i: nat)
    requires |t| == ENTRIES && Chain(t, c) && i < |c|
    ensures Chain(t, c[i..])
  {
    forall j | 0 <= j < |c| - i ensures Linked(t, c[i..], j) { assert Linked(t, c, i + j); }
  }

  /** Data of at most one sector that is written through a handle without a cluster goes to sector 0. */
  lemma EmptiedFirst(d: seq<sector>, fat: seq<word>, data: seq<byte>)
    requires |d| == SECTORS && |fat| == WORDS && 0 < |data| <= 512
    ensures Spilled(d, fat, 0, data) == d[0 := Filled(data, 0)]
  {
    LastSector(data);
  }

  /** What the walk from cluster 0 leaves, when entry 0 of the table refers to the start of the chain `b`. */
  ghost predicate FromZero(d: seq<sector>, b: seq<word>, data: seq<byte>, w: Walk)
    requires |d| == |w.disk| == SECTORS && |data| > 512
  {
    var n := Shorter(|data| / 512 - 1, |b|);
    && w.n == n + 1 && w.cluster == (if n < |b| then b[n] else EOC)
    && (forall j :: 0 <= j < n ==> w.disk[b[j]] == Filled(data, j + 1))
    && (forall k: word :: k !in b[..n] ==> w.disk[k] == d[0 := Filled(data, 0)][k])
  }

  lemma WalkedFromZero(d: seq<sector>, fat: seq<word>, b: seq<word>, data: seq<byte>)
    requires |d| == SECTORS && |fat| == WORDS && Chain(fat[..ENTRIES], b) && fat[0] == b[0] && |data| > 512
    ensures FromZero(d, b, data, Walked(d, fat, 0, data, 0))
  {
    assert fat[0] != EOC by { assert Linked(fat[..ENTRIES], b, 0); }
    WalkedOnce(d, fat, 0, data, 0);
    var w, e := Walked(d, fat, 0, data, 0), d[0 := Filled(data, 0)];
    if |data| >= 1024 {
      FromZeroOn(d, fat, b, data);
    } else {
      hide Chain, Walked;
      assert |data| / 512 == 1 && w == Walk(e, b[0], 1);
    }
  }

  lemma FromZeroOn(d: seq<sector>, fat: seq<word>, b: seq<word>, data: seq<byte>)
    requires |d| == SECTORS && |fat| == WORDS && Chain(fat[..ENTRIES], b) && |data| >= 1024
    ensures FromZero(d, b, data, Walked(d[0 := Filled(data, 0)], fat, b[0], data, 1))
  {
    ChainDistinct(fat[..ENTRIES], b);
    assert |b| > 0;
    hide Chain, Walked, Distinct, Filled;
    var e := d[0 := Filled(data, 0)];
    WalkedAlong(e, fat, b, data, 0, 1);
    var n := Shorter(|data| / 512 - 1, |b|);
    assert b[0..n] == b[..n];
  }

  lemma EmptiedTail(d: seq<sector>, fat: seq<word>, b: seq<word>, data: seq<byte>, j: nat)
    requires |d| == SECTORS && |fat| == WORDS && Chain(fat[..ENTRIES], b) && fat[0] == b[0] && |data| > 512 && j < |b|
    ensures var s := Spilled(d, fat, 0, data);
      && s[0] == Filled(data, 0)
      && s[b[j]] == if 512 * (j + 1) < |data| then Filled(data, j + 1) else d[b[j]]
  {
    WalkedFromZero(d, fat, b, data);
    ChainDistinct(fat[..ENTRIES], b);
    ChainInTable(fat[..ENTRIES], b);
    LastSector(data);
    hide Walked, Filled, Remainder, Chain;
    var w, n := Walked(d, fat, 0, data, 0), Shorter(|data| / 512 - 1, |b|);
    assert b[j] in b && 0 !in b;
    assert w.cluster != 0 by { if n < |b| { assert b[n] in b; } }
    if j < n {
      assert w.cluster != b[j];
    } else {
      assert b[j] !in b[..n];
      assert j == n ==> w.cluster == b[j];
    }
  }

  /**
   * Longer data goes on to wherever entry 0 of the table refers. If that is cluster `i` of a file, then the file is
   * overwritten from there on with the data from its second sector on.
   */
  lemma EmptiedOverwrites(d: seq<sector>, fat: seq<word>, c: seq<word>, i: nat, data: seq<byte>)
    requires |d| == SECTORS && |fat| == WORDS && Chain(fat[..ENTRIES], c) && i < |c| && fat[0] == c[i] && |data| > 512
    ensures var s := Spilled(d, fat, 0, data);
      && s[0] == Filled(data, 0)
      && forall y :: i <= y < |c| ==> s[c[y]] == if 512 * (y - i + 1) < |data| then Filled(data, y - i + 1) else d[c[y]]
  {
    hide Spilled, Filled;
    var b := c[i..];
    ChainTail(fat[..ENTRIES], c, i);
    EmptiedTail(d, fat, b, data, 0);
    forall y | i <= y < |c|
      ensures Spilled(d, fat, 0, data)[c[y]] ==
        if 512 * (y - i + 1) < |data| then Filled(data, y - i + 1) else d[c[y]]
    {
      EmptiedTail(d, fat, b, data, y - i);
    }
  }

  lemma WrittenAt(d: seq<sector>, e: seq<sector>, c: seq<word>, data: seq<byte>, i: nat, o: nat)
    requires Written(d, e, c, data) && i < |c| && o < 512
    ensures e[c[i]][o] == if 512 * i + o < 512 * Clusters(|data|) then Padded(data, 512 * i + o) else d[c[i]][o]
  {
    assert 512 * i < |data| <==> 512 * i + o < 512 * Clusters(|data|);
    assert e[c[i]] == if 512 * i < |data| then Filled(data, i) else d[c[i]];
  }

  lemma WrittenContent(d: seq<sector>, e: seq<sector>, c: seq<word>, data: seq<byte>)
    requires Written(d, e, c, data)
    ensures Content(e, c) == Overwritten(Content(d, c), data)
  {
    forall p | 0 <= p < 512 * |c| ensures Content(e, c)[p] == Overwritten(Content(d, c), data)[p] {
      WrittenAt(d, e, c, data, p / 512, p % 512);
    }
  }

  /** A file on a disjoint chain of the table is not affected, not even by a stray sector. */
  lemma WrittenFrame(d: seq<sector>, e: seq<sector>, c: seq<word>, data: seq<byte>, other: seq<word>)
    requires Written(d, e, c, data)
    requires forall k <- other :: k !in c && k < ENTRIES
    ensures Content(e, other) == Content(d, other)
  {
    forall p | 0 <= p < 512 * |other| ensures Content(e, other)[p] == Content(d, other)[p] {
      assert other[p / 512] in other;
    }
  }

  /** Only the sectors of the table differ. */
  ghost predicate DataKept(d: seq<sector>, e: seq<sector>) {
    |d| == |e| == SECTORS && forall k {:trigger e[k]} :: 0 <= k < SECTORS && !(3 <= k < 258) ==> e[k] == d[k]
  }

  lemma DataKeptContent(d: seq<sector>, e: seq<sector>, c: seq<word>)
    requires DataKept(d, e) && forall k <- c :: DATA_START <= k
    ensures Content(e, c) == Content(d, c)
  {
    forall p | 0 <= p < 512 * |c| ensures Content(e, c)[p] == Content(d, c)[p] {
      assert c[p / 512] in c;
    }
  }

  lemma ChainInTable(t: seq<word>, c: seq<word>)
    requires |t| == ENTRIES && Chain(t, c)
    ensures forall k <- c :: DATA_START <= k < ENTRIES
  {
    forall k | k in c ensures DATA_START <= k < ENTRIES {
      var i :| 0 <= i < |c| && c[i] == k;
      assert Linked(t, c, i);
    }
  }

  /** Writing along a chain leaves the table alone. */
  lemma WrittenTable(d: seq<sector>, e: seq<sector>, c: seq<word>, data: seq<byte>)
    requires Written(d, e, c, data) && forall k <- c :: DATA_START <= k
    ensures TableOf(e) == TableOf(d)
  {
    forall k: word | 3 <= k < 258 ensures d[k] == e[k] { assert k !in c; }
    TableFrame(d, e);
  }

  // ---------------------------------------------------------------- files as byte sequences

  /** Empty for an empty file; Overrun when the chain has more clusters than the buffer. */
  datatype ReadResult = Empty | Bytes(bytes: seq<byte>) | Overrun

  /** What read_file delivers for a file of `size` bytes, if the new buffer held `stale` before. */
  function ReadOf(content: seq<byte>, size: nat, stale: seq<byte>): ReadResult
    requires |stale| == 512 * Clusters(size)
  {
    if size == 0 then Empty
    else if |content| > |stale| then Overrun
    else Bytes(content + stale[|content|..])
  }

  ghost predicate Delivers(r: ReadResult, data: seq<byte>) {
    r.Bytes? && |data| <= |r.bytes| && r.bytes[..|data|] == data
  }

  /** Reading returns the data, whatever the new buffer held before. */
  ghost predicate ReadsBack(content: seq<byte>, data: seq<byte>) {
    forall stale: seq<byte> :: |stale| == 512 * Clusters(|data|) ==> Delivers(ReadOf(content, |data|, stale), data)
  }

  /** Write then read is the identity exactly for files whose chain has the right number of clusters. */
  lemma RoundTrip(content: seq<byte>, data: seq<byte>, n: nat)
    requires |content| == 512 * n && n > 0 && |data| > 0
    ensures ReadsBack(Overwritten(content, data), data) <==> n == Clusters(|data|)
  {
    var after, m := Overwritten(content, data), Clusters(|data|);
    if n == m {
      forall stale: seq<byte> | |stale| == 512 * m ensures Delivers(ReadOf(after, |data|, stale), data) {
        assert after + stale[|after|..] == after;
        assert after[..|data|] == data;
      }
    } else {
      var b: byte := if 512 * n < |data| && data[512 * n] == 0 then 1 else 0;
      var stale: seq<byte> := seq(512 * m, i => b);
      assert !Delivers(ReadOf(after, |data|, stale), data) by {
        if n < m { assert (after + stale[|after|..])[512 * n] == b; }
      }
    }
  }

  /** The contents of all files, by first cluster. */
  type Files = map<word, seq<byte>>

  datatype FileOp =
    | Create(k: word, stale: seq<byte>)
    | Delete(k: word)
    | Clear(k: word)
    | Write(k: word, data: seq<byte>)
    | Nothing

  predicate Touches(op: FileOp, k: word) {
    !op.Nothing? && op.k == k
  }

  ghost predicate FileStep(s: Files, op: FileOp, t: Files) {
    match op
    case Create(k, stale) => k !in s && |stale| == 512 && t == s[k := stale]
    case Delete(k) => k in s && t == s - {k}
    case Clear(k) => k in s && |s[k]| >= 512 && t == s[k := s[k][..512]]
    case Write(k, data) => k in s && t == s[k := Overwritten(s[k], data)]
    case Nothing => t == s
  }

  ghost predicate FileRun(h: seq<Files>, ops: seq<FileOp>) {
    |h| == |ops| + 1 && forall i :: 0 <= i < |ops| ==> FileStep(h[i], ops[i], h[i + 1])
  }

  lemma FileRunNone(s: Files)
    ensures FileRun([s], [])
  {
  }

  lemma FileRunExtends(h: seq<Files>, ops: seq<FileOp>, op: FileOp, t: Files)
    requires |h| == |ops| + 1 && FileRun(h, ops) && FileStep(h[|ops|], op, t)
    ensures FileRun(h + [t], ops + [op])
  {
    var g := h + [t];
    forall i | 0 <= i < |ops| + 1 ensures FileStep(g[i], (ops + [op])[i], g[i + 1]) {
      if i < |ops| { assert FileStep(h[i], ops[i], h[i + 1]); }
    }
  }

  /** A file changes only through operations on itself. */
  lemma {:induction false} FileRunKeeps(h: seq<Files>, ops: seq<FileOp>, k: word, i: nat, j: nat)
    requires FileRun(h, ops) && i <= j <= |ops| && k in h[i]
    requires forall x :: i <= x < j ==> !Touches(ops[x], k)
    ensures k in h[j] && h[j][k] == h[i][k]
    decreases j - i
  {
    if i < j {
      assert FileStep(h[i], ops[i], h[i + 1]);
      FileRunKeeps(h, ops, k, i + 1, j);
    }
  }

  /** Data written to a file whose chain has the right length is read back after any run on other files. */
  lemma WriteSurvives(h: seq<Files>, ops: seq<FileOp>, i: nat, j: nat)
    requires FileRun(h, ops) && i < j <= |ops| && ops[i].Write? && |ops[i].data| > 0
    requires ops[i].k in h[i] && |h[i][ops[i].k]| == 512 * Clusters(|ops[i].data|)
    requires forall x :: i < x < j ==> !Touches(ops[x], ops[i].k)
    ensures ops[i].k in h[j] && ReadsBack(h[j][ops[i].k], ops[i].data)
  {
    assert FileStep(h[i], ops[i], h[i + 1]);
    FileRunKeeps(h, ops, ops[i].k, i + 1, j);
    RoundTrip(h[i][ops[i].k], ops[i].data, Clusters(|ops[i].data|));
  }

  ghost predicate OneCluster(s: Files) {
    forall k <- s :: |s[k]| == 512
  }

  /** No operation gives a file a second cluster. */
  lemma {:induction false} FilesStayShort(h: seq<Files>, ops: seq<FileOp>, i: nat)
    requires FileRun(h, ops) && OneCluster(h[0]) && i <= |ops|
    ensures OneCluster(h[i])
  {
    if i > 0 {
      FilesStayShort(h, ops, i - 1);
      assert FileStep(h[i - 1], ops[i - 1], h[i]);
    }
  }

  /** So from a disk without long files, what is written is read back if and only if it fits one sector. */
  lemma OnlyShortFilesReadBack(h: seq<Files>, ops: seq<FileOp>, i: nat)
    requires FileRun(h, ops) && OneCluster(h[0]) && i < |ops| && ops[i].Write? && |ops[i].data| > 0
    ensures ops[i].k in h[i + 1] && (ReadsBack(h[i + 1][ops[i].k], ops[i].data) <==> |ops[i].data| <= 512)
  {
    FilesStayShort(h, ops, i);
    assert FileStep(h[i], ops[i], h[i + 1]);
    RoundTrip(h[i][ops[i].k], ops[i].data, 1);
  }

  // ---------------------------------------------------------------- from chains to files

  ghost function FilesOf(d: seq<sector>, m: Chains): Files
    requires |d| == SECTORS
  {
    map k | k in m :: Content(d, m[k])
  }

  lemma OwnedInTable(t: seq<word>, m: Chains, k: word)
    requires Owned(t, m) && k in m
    ensures Chain(t, m[k]) && m[k][0] == k && Distinct(m[k]) && forall x <- m[k] :: DATA_START <= x < ENTRIES
  {
    assert Owns(t, m, k);
    ChainInTable(t, m[k]);
    ChainDistinct(t, m[k]);
  }

  lemma SameFiles(d: seq<sector>, e: seq<sector>, m: Chains)
    requires DataKept(d, e) && Owned(TableOf(d), m)
    ensures FilesOf(e, m) == FilesOf(d, m)
  {
    forall k | k in m ensures Content(e, m[k]) == Content(d, m[k]) {
      OwnedInTable(TableOf(d), m, k);
      DataKeptContent(d, e, m[k]);
    }
  }

  lemma CreateStep(d: seq<sector>, e: seq<sector>, m: Chains, c: word)
    requires DataKept(d, e) && Owned(TableOf(d), m) && c !in m
    ensures FileStep(FilesOf(d, m), Create(c, Content(e, [c])), FilesOf(e, m[c := [c]]))
  {
    SameFiles(d, e, m);
    assert FilesOf(e, m[c := [c]]) == FilesOf(e, m)[c := Content(e, [c])];
  }

  lemma DeleteStep(d: seq<sector>, e: seq<sector>, m: Chains, k: word)
    requires DataKept(d, e) && Owned(TableOf(d), m) && k in m
    ensures FileStep(FilesOf(d, m), Delete(k), FilesOf(e, m - {k}))
  {
    SameFiles(d, e, m);
    assert FilesOf(e, m - {k}) == FilesOf(e, m) - {k};
  }

  lemma ClearStep(d: seq<sector>, e: seq<sector>, m: Chains, k: word)
    requires DataKept(d, e) && Owned(TableOf(d), m) && k in m
    ensures FileStep(FilesOf(d, m), Clear(k), FilesOf(e, m[k := [k]]))
  {
    SameFiles(d, e, m);
    OwnedInTable(TableOf(d), m, k);
    var b := Content(e, m[k]);
    assert Content(e, [k]) == b[..512];
    assert FilesOf(e, m[k := [k]]) == FilesOf(e, m)[k := b[..512]];
  }

  lemma WriteStep(d: seq<sector>, e: seq<sector>, m: Chains, k: word, data: seq<byte>)
    requires |d| == SECTORS && Owned(TableOf(d), m) && k in m && Written(d, e, m[k], data)
    ensures FileStep(FilesOf(d, m), Write(k, data), FilesOf(e, m))
  {
    WrittenContent(d, e, m[k], data);
    forall l | l in m && l != k ensures Content(e, m[l]) == Content(d, m[l]) {
      OwnedInTable(TableOf(d), m, l);
      assert Apart(m, l, k);
      WrittenFrame(d, e, m[k], data, m[l]);
    }
    assert FilesOf(e, m) == FilesOf(d, m)[k := Overwritten(Content(d, m[k]), data)];
  }
}
