/** Cluster allocation and file data (fs/fs.c) over a disk of sectors and the buffer that caches the table. */
module FatFileSystem {
  import opened Basics
  import opened Sequences
  import opened FatSpec
  import opened FileCalls

  /** The fields of inode_t that matter here. */
  class Inode {
    var cluster: word
    var size: nat

    constructor ()
      ensures cluster == 0 && size == 0
    {
      cluster, size := 0, 0;
    }
  }

  /** A new file's cluster is recorded in the table, lies beyond the table, or does not exist (panic). */
  datatype Allocation = Recorded | BeyondTable | Full

  /** Why a run stops: no free entry (panic, or a cluster beyond the table), a panic, or a handle without a cluster. */
  datatype Stop = Going | NoCluster | TooLarge | Emptied

  class FileSystem {
    const disk: array<sector>
    /** 65280 entries of the table; the rest is whatever memory lies behind the buffer. */
    const fatBuffer: array<word>
    var wasFatRead: bool
    ghost var chains: Chains

    ghost predicate Shape() {
      disk.Length == SECTORS && fatBuffer.Length == 65536
    }

    ghost function Table(): seq<word>
      requires Shape()
      reads disk
    {
      TableOf(disk[..])
    }

    /** The buffer is the table on disk. */
    ghost predicate Cached()
      requires Shape()
      reads disk, fatBuffer
    {
      fatBuffer[..ENTRIES] == Table()
    }

    ghost predicate Valid()
      reads this, disk, fatBuffer
    {
      Shape() && (wasFatRead ==> Cached()) && Owned(Table(), chains)
    }

    /** All files as byte sequences. */
    ghost function Contents(): Files
      requires Shape()
      reads this, disk
    {
      FilesOf(disk[..], chains)
    }

    /** What init_fs finds: a disk with well-formed chains, for instance an empty one, and nothing read yet. */
    constructor (disk: array<sector>, fatBuffer: array<word>, ghost chains: Chains)
      requires disk.Length == SECTORS && fatBuffer.Length == 65536 && Owned(TableOf(disk[..]), chains)
      ensures Valid() && this.disk == disk && this.fatBuffer == fatBuffer && this.chains == chains
    {
      this.disk, this.fatBuffer, this.chains := disk, fatBuffer, chains;
      wasFatRead := false;
    }

    /** fat_read; ata_read copies word by word. */
    method FatRead()
      requires Shape() && (wasFatRead ==> Cached())
      modifies this`wasFatRead, fatBuffer
      ensures wasFatRead && Cached() && fatBuffer[ENTRIES..] == old(fatBuffer[ENTRIES..])
    {
      if wasFatRead { return; }
      wasFatRead := true;
      var i := 0;
      while i < ENTRIES
        invariant 0 <= i <= ENTRIES && wasFatRead
        invariant forall j :: 0 <= j < i ==> fatBuffer[j] == EntryOf(disk[..], j)
        invariant fatBuffer[ENTRIES..] == old(fatBuffer[ENTRIES..])
      {
        fatBuffer[i] := WordAt(disk[3 + i / 256], i % 256);
        i := i + 1;
      }
    }

    /** fat_write: the buffer becomes the table on disk, and has to be read again. */
    method FatWrite()
      requires Shape()
      modifies this`wasFatRead, disk
      ensures !wasFatRead && Cached() && Stored(old(disk[..]), disk[..], fatBuffer[..ENTRIES])
    {
      var k := 0;
      while k < 255
        invariant 0 <= k <= 255
        invariant forall m :: 3 <= m < 3 + k ==> disk[m] == Pack(fatBuffer[256 * (m - 3)..256 * (m - 2)])
        invariant forall m :: 0 <= m < SECTORS && !(3 <= m < 3 + k) ==> disk[m] == old(disk[m])
      {
        disk[3 + k] := Pack(fatBuffer[256 * k..256 * (k + 1)]);
        k := k + 1;
      }
      forall m | 3 <= m < 258 ensures disk[..][m] == Pack(fatBuffer[..ENTRIES][256 * (m - 3)..256 * (m - 2)]) {
        assert fatBuffer[..ENTRIES][256 * (m - 3)..256 * (m - 2)] == fatBuffer[256 * (m - 3)..256 * (m - 2)];
      }
      StoredTable(old(disk[..]), disk[..], fatBuffer[..ENTRIES]);
      wasFatRead := false;
    }

    /** fat_find_free_cluster: the search does not stop where the table ends. */
    method FindFreeCluster() returns (i: word, err: bool)
      requires Shape()
      ensures err <==> forall j :: DATA_START <= j < 65535 ==> fatBuffer[j] != 0
      ensures !err ==> DATA_START <= i < 65535 && fatBuffer[i] == 0
      ensures !err ==> forall j :: DATA_START <= j < i ==> fatBuffer[j] != 0
      ensures err ==> i == 0
    {
      i := DATA_START;
      while i < 65535
        invariant DATA_START <= i <= 65535
        invariant forall j :: DATA_START <= j < i ==> fatBuffer[j] != 0
      {
        if fatBuffer[i] == 0 { return i, false; }
        i := i + 1;
      }
      return 0, true;
    }

    /** init_first_cluster: the new chain is one cluster, the least free one. */
    method InitFirstCluster(inode: Inode) returns (r: Allocation)
      requires Valid()
      modifies this, fatBuffer, disk, inode`cluster
      ensures Valid()
      ensures r.Recorded? <==> exists i :: DATA_START <= i < ENTRIES && old(Table())[i] == 0
      ensures r.Recorded? ==>
        var c := inode.cluster;
        && DATA_START <= c < ENTRIES && old(Table())[c] == 0
        && (forall i :: DATA_START <= i < c ==> old(Table())[i] != 0)
        && Table() == old(Table())[c := EOC] && c !in old(chains) && chains == old(chains)[c := [c]]
      ensures !r.Recorded? ==> Table() == old(Table()) && chains == old(chains)
      ensures r.BeyondTable? ==> inode.cluster >= ENTRIES && fatBuffer[inode.cluster] == EOC
      ensures r.Full? ==> inode.cluster == 0
      ensures DataKept(old(disk[..]), disk[..])
    {
      FatRead();
      var i, err := FindFreeCluster();
      inode.cluster := i;
      if err { return Full; }
      ghost var t := fatBuffer[..ENTRIES];
      fatBuffer[i] := EOC;
      FatWrite();
      if i < ENTRIES {
        InitKeeps(t, chains, i);
        assert fatBuffer[..ENTRIES] == t[i := EOC];
        chains := chains[i := [i]];
        assert t[i] == 0;
        return Recorded;
      }
      assert fatBuffer[..ENTRIES] == t;
      return BeyondTable;
    }

    /** The loop of fat_delete_file and fat_clear_file; the last write hits the entry EOC, behind the table. */
    method FreeChain(first: word, ghost c: seq<word>)
      requires Shape() && Chain(fatBuffer[..ENTRIES], c) && c[0] == first
      modifies fatBuffer
      ensures fatBuffer[..ENTRIES] == Zeroed(old(fatBuffer[..ENTRIES]), c)
      ensures fatBuffer[EOC] == 0
      ensures forall j :: ENTRIES <= j < 65536 && j != EOC as int ==> fatBuffer[j] == old(fatBuffer[j])
    {
      var cluster, it := first, first;
      ghost var i := 0;
      ChainInTable(fatBuffer[..ENTRIES], c);
      ChainDistinct(fatBuffer[..ENTRIES], c);
      assert c[0] in c;
      while it != EOC
        invariant 0 <= i <= |c| && it == cluster == if i < |c| then c[i] else EOC
        invariant i < |c| ==> it < ENTRIES
        invariant forall j: word :: j < ENTRIES ==> fatBuffer[j] == if j in c[..i] then 0 else old(fatBuffer[j])
        invariant forall j :: ENTRIES <= j < 65536 ==> fatBuffer[j] == old(fatBuffer[j])
        decreases |c| - i
      {
        assert Linked(old(fatBuffer[..ENTRIES]), c, i);
        it := fatBuffer[it];
        fatBuffer[cluster] := 0;
        cluster := it;
        assert c[..i + 1] == c[..i] + [c[i]];
        i := i + 1;
        assert i < |c| ==> c[i] in c;
      }
      assert c[..i] == c;
      fatBuffer[it] := 0;
    }

    /** fat_delete_file */
    method FatDeleteFile(inode: Inode?)
      requires Valid() && (inode != null && inode.cluster != 0 ==> inode.cluster in chains)
      modifies this, fatBuffer, disk
      modifies if inode == null then {} else {inode}
      ensures Valid()
      ensures inode == null || old(inode.cluster) == 0 ==> Table() == old(Table()) && chains == old(chains)
      ensures inode != null ==> inode.cluster == 0 && inode.size == old(inode.size)
      ensures inode != null && old(inode.cluster) != 0 ==>
        var c := old(inode.cluster);
        Table() == Zeroed(old(Table()), old(chains[c])) && chains == old(chains) - {c}
      ensures DataKept(old(disk[..]), disk[..])
    {
      if inode == null || inode.cluster == 0 { return; }
      FatRead();
      var cluster := inode.cluster;
      inode.cluster := 0;
      assert Owns(Table(), chains, cluster);
      DeleteKeeps(Table(), chains, cluster);
      FreeChain(cluster, chains[cluster]);
      FatWrite();
      chains := chains - {cluster};
    }

    /** fat_clear_file */
    method FatClearFile(inode: Inode?)
      requires Valid() && (inode != null && inode.cluster != 0 ==> inode.cluster in chains)
      modifies this, fatBuffer, disk
      ensures Valid()
      ensures inode == null || inode.cluster == 0 ==> Table() == old(Table()) && chains == old(chains)
      ensures inode != null && inode.cluster != 0 ==>
        var c := inode.cluster;
        && c < ENTRIES && Table() == Zeroed(old(Table()), old(chains[c]))[c := EOC]
        && chains == old(chains)[c := [c]]
      ensures DataKept(old(disk[..]), disk[..])
    {
      if inode == null || inode.cluster == 0 { return; }
      FatRead();
      ghost var cluster := inode.cluster;
      assert Owns(Table(), chains, cluster);
      ClearKeeps(Table(), chains, cluster);
      FreeChain(inode.cluster, chains[cluster]);
      ghost var t := fatBuffer[..ENTRIES];
      fatBuffer[inode.cluster] := EOC;
      assert fatBuffer[..ENTRIES] == t[cluster := EOC];
      FatWrite();
      chains := chains[cluster := [cluster]];
    }

    /** fat_resize_file: the size is stored before it is compared, so no branch that changes the chain is reached. */
    method FatResizeFile(inode: Inode, size: nat)
      requires Valid()
      modifies this`wasFatRead, fatBuffer, disk, inode`size
      ensures Valid() && inode.size == size && disk[..] == old(disk[..])
      ensures fatBuffer[ENTRIES..] == old(fatBuffer[ENTRIES..])
    {
      var newClusters := size / 512 % 65536;
      if size % 512 != 0 { newClusters := (newClusters + 1) % 65536; }
      var oldClusters := inode.size / 512 % 65536;
      if inode.size % 512 != 0 { oldClusters := (oldClusters + 1) % 65536; }
      inode.size := size;
      if newClusters == oldClusters { return; }
      FatRead();
      inode.size := size;
      FatWrite();
      StoredAgain(old(disk[..]), disk[..], fatBuffer[..ENTRIES]);
    }

    /** The loop over whole sectors (lines 557-568), wherever the entries lead; it runs at least once. */
    method WriteSectors(first: word, buffer: seq<byte>) returns (cluster: word, n: nat)
      requires Shape() && |buffer| >= 512
      modifies disk
      ensures Walk(disk[..], cluster, n) == Walked(old(disk[..]), fatBuffer[..], first, buffer, 0)
    {
      cluster, n := first, 0;
      var size := |buffer|;
      var more := true;
      while more
        invariant size == |buffer| - 512 * n >= 0 && (more ==> size >= 512)
        invariant Walked(old(disk[..]), fatBuffer[..], first, buffer, 0) ==
          if more then Walked(disk[..], fatBuffer[..], cluster, buffer, n) else Walk(disk[..], cluster, n)
        decreases size + if more then 1 else 0
      {
        ghost var d := disk[..];
        var s := buffer[512 * n..512 * n + 512];
        WholeSector(buffer, n);
        disk[cluster] := s;
        assert disk[..] == d[cluster := Filled(buffer, n)];
        cluster := fatBuffer[cluster];
        n := n + 1;
        size := size - 512;
        more := cluster != EOC && size >= 512;
      }
    }

    /** write_file_data; false is the panic for files over 65535 sectors. */
    method WriteFileData(inode: Inode, buffer: seq<byte>) returns (ok: bool)
      requires Valid()
      modifies this`wasFatRead, fatBuffer, disk, inode`size
      ensures Shape() && ok == (|buffer| / 512 <= 65535)
      ensures !ok ==> Valid() && inode.size == old(inode.size) && disk[..] == old(disk[..])
      ensures ok ==> inode.size == |buffer|
      ensures ok ==> fatBuffer[..ENTRIES] == old(Table()) && fatBuffer[ENTRIES..] == old(fatBuffer[ENTRIES..])
      ensures ok ==> disk[..] == Spilled(old(disk[..]), fatBuffer[..], inode.cluster, buffer)
      ensures ok && inode.cluster in chains ==>
        Valid() && Written(old(disk[..]), disk[..], chains[inode.cluster], buffer)
      ensures ok && buffer == [] ==> Valid()
    {
      if |buffer| / 512 > 65535 { return false; }
      FatResizeFile(inode, |buffer|);
      FatRead();
      ok := true;
      ghost var t := Table();
      var cluster, n := inode.cluster, 0;
      if |buffer| / 512 != 0 { cluster, n := WriteSectors(cluster, buffer); }
      if |buffer| % 512 != 0 { disk[cluster] := Remainder(buffer, n); }
      if inode.cluster in chains {
        assert Owns(t, chains, inode.cluster) && fatBuffer[..][..ENTRIES] == t;
        ghost var c := chains[inode.cluster];
        SpilledIsWritten(old(disk[..]), fatBuffer[..], c, buffer);
        ChainInTable(t, c);
        WrittenTable(old(disk[..]), disk[..], c, buffer);
      }
    }

    /** read_file of a file that is not the root directory; `stale` is what the new buffer held. */
    method ReadFile(inode: Inode) returns (r: ReadResult, ghost stale: seq<byte>)
      requires Valid() && inode.cluster in chains
      modifies this`wasFatRead, fatBuffer
      ensures Valid() && |stale| == 512 * Clusters(inode.size)
      ensures r == ReadOf(Contents()[inode.cluster], inode.size, stale)
    {
      var sectors := inode.size / 512;
      if inode.size % 512 != 0 { sectors := sectors + 1; }
      stale := [];
      if sectors == 0 { return Empty, stale; }
      assert sectors == Clusters(inode.size);
      var buffer := new byte[sectors * 512];
      stale := buffer[..];
      FatRead();
      OwnedInTable(Table(), chains, inode.cluster);
      var ok := ReadSectors(inode.cluster, buffer, chains[inode.cluster]);
      if !ok { return Overrun, stale; }
      assert buffer[..] == Contents()[inode.cluster] + stale[|Contents()[inode.cluster]|..];
      r := Bytes(buffer[..]);
    }

    /** The loop of read_file (lines 685-688); false when it runs past the end of the buffer. */
    method ReadSectors(first: word, buffer: array<byte>, ghost c: seq<word>) returns (ok: bool)
      requires Shape() && Cached() && Chain(Table(), c) && c[0] == first
      modifies buffer
      ensures ok == (512 * |c| <= buffer.Length)
      ensures ok ==> buffer[..512 * |c|] == Content(disk[..], c) && buffer[512 * |c|..] == old(buffer[512 * |c|..])
    {
      var cluster, it := first, 0;
      ghost var t, i := Table(), 0;
      assert Linked(t, c, 0);
      while cluster != EOC
        invariant 0 <= i <= |c| && it == 512 * i <= buffer.Length
        invariant cluster == (if i < |c| then c[i] else EOC) && (i < |c| ==> cluster < ENTRIES)
        invariant forall p :: 0 <= p < it ==> buffer[p] == Content(disk[..], c)[p]
        invariant forall p :: it <= p < buffer.Length ==> buffer[p] == old(buffer[p])
        decreases |c| - i
      {
        assert Linked(t, c, i) && (i + 1 < |c| ==> Linked(t, c, i + 1));
        if it + 512 > buffer.Length { return false; }
        var s := disk[cluster];
        forall o | 0 <= o < 512 { buffer[it + o] := s[o]; }
        assert fatBuffer[..ENTRIES][cluster] == t[cluster];
        cluster := fatBuffer[cluster];
        it := it + 512;
        i := i + 1;
      }
      ok := true;
    }

    // -------------------------------------------------------------- runs

    /** Every handle is empty or names a chain, and no two name the same one. */
    ghost predicate Handles(files: seq<Inode>)
      reads this`chains, files
    {
      && Distinct(files)
      && (forall f <- files :: f.cluster != 0 ==> f.cluster in chains)
      && (forall f, g | f in files && g in files && f != g && f.cluster != 0 :: f.cluster != g.cluster)
    }

    /** No data entry of the table is free. */
    ghost predicate TableFull()
      requires Shape()
      reads disk
    {
      forall i :: DATA_START <= i < ENTRIES ==> Table()[i] != 0
    }

    /** Storing through the handle `inode` writes sector 0: it has no cluster, and there is something to write. */
    ghost predicate Astray(inode: Inode, data: seq<byte>)
      reads inode
    {
      inode.cluster == 0 && data != [] && |data| / 512 <= 65535
    }

    /** write_file_data as a step of the store of files. */
    method ApplyStore(inode: Inode, data: seq<byte>) returns (stop: Stop, ghost op: FileOp)
      requires Valid() && (inode.cluster != 0 ==> inode.cluster in chains)
      modifies this`wasFatRead, fatBuffer, disk, inode`size
      ensures Shape() && (!stop.Emptied? ==> Valid())
      ensures stop.TooLarge? <==> |data| / 512 > 65535
      ensures stop.Emptied? <==> old(Astray(inode, data))
      ensures !stop.NoCluster? && inode.size == if stop.TooLarge? then old(inode.size) else |data|
      ensures stop.TooLarge? ==> Contents() == old(Contents())
      ensures stop.Emptied? ==>
        && fatBuffer[..ENTRIES] == old(Table())
        && disk[..] == Spilled(old(disk[..]), fatBuffer[..], 0, data)
      ensures stop.Going? ==> op == (if inode.cluster == 0 then Nothing else Write(inode.cluster, data))
      ensures stop.Going? ==> FileStep(old(Contents()), op, Contents())
    {
      ghost var d, k := disk[..], inode.cluster;
      op := Nothing;
      var ok := WriteFileData(inode, data);
      if !ok { return TooLarge, op; }
      if inode.cluster == 0 {
        return if data == [] then Going else Emptied, op;
      }
      stop, op := Going, Write(k, data);
      WriteStep(d, disk[..], chains, k, data);
    }

    /** init_first_cluster as a step of the store of files. */
    method ApplyInit(inode: Inode) returns (stop: Stop, ghost op: FileOp)
      requires Valid()
      modifies this, fatBuffer, disk, inode`cluster
      ensures Valid()
      ensures stop == (if old(TableFull()) then NoCluster else Going)
      ensures stop.NoCluster? ==> Contents() == old(Contents()) && chains == old(chains) && TableFull()
      ensures stop.Going? ==> op.Create? && op.k == inode.cluster && inode.cluster != 0
      ensures stop.Going? ==> inode.cluster !in old(chains) && chains.Keys == old(chains).Keys + {inode.cluster}
      ensures stop.Going? ==> FileStep(old(Contents()), op, Contents())
    {
      ghost var d, m := disk[..], chains;
      op := Nothing;
      var r := InitFirstCluster(inode);
      SameFiles(d, disk[..], m);
      if !r.Recorded? { return NoCluster, op; }
      stop, op := Going, Create(inode.cluster, Content(disk[..], [inode.cluster]));
      CreateStep(d, disk[..], m, inode.cluster);
    }

    method ApplyRemove(inode: Inode) returns (ghost op: FileOp)
      requires Valid() && (inode.cluster != 0 ==> inode.cluster in chains)
      modifies this, fatBuffer, disk, inode
      ensures Valid() && inode.cluster == 0 && inode.size == old(inode.size)
      ensures op == (if old(inode.cluster) == 0 then Nothing else Delete(old(inode.cluster)))
      ensures chains == old(chains) - if old(inode.cluster) == 0 then {} else {old(inode.cluster)}
      ensures FileStep(old(Contents()), op, Contents())
    {
      ghost var d, m, k := disk[..], chains, inode.cluster;
      op := Nothing;
      FatDeleteFile(inode);
      SameFiles(d, disk[..], m);
      if k != 0 {
        op := Delete(k);
        DeleteStep(d, disk[..], m, k);
      }
    }

    method ApplyTruncate(inode: Inode) returns (ghost op: FileOp)
      requires Valid() && (inode.cluster != 0 ==> inode.cluster in chains)
      modifies this, fatBuffer, disk
      ensures Valid() && chains.Keys == old(chains).Keys
      ensures op == (if inode.cluster == 0 then Nothing else Clear(inode.cluster))
      ensures FileStep(old(Contents()), op, Contents())
    {
      ghost var d, m, k := disk[..], chains, inode.cluster;
      op := Nothing;
      FatClearFile(inode);
      SameFiles(d, disk[..], m);
      if k != 0 {
        op := Clear(k);
        ClearStep(d, disk[..], m, k);
      }
    }

    /**
     * One call as a step of the store of files. A run stops at a panic, at a file that got a cluster beyond the table,
     * and at data that is stored through a handle without a cluster.
     */
    method Apply(files: seq<Inode>, c: Command) returns (stop: Stop, ghost op: FileOp)
      requires Valid() && Handles(files) && c.f < |files|
      modifies this, fatBuffer, disk, files
      ensures Shape() && (!stop.Emptied? ==> Valid()) && (stop.Going? ==> Handles(files))
      ensures stop.NoCluster? <==> c.Init? && old(TableFull())
      ensures stop.TooLarge? <==> c.Store? && |c.data| / 512 > 65535
      ensures stop.Emptied? <==> c.Store? && old(Astray(files[c.f], c.data))
      ensures stop.Emptied? ==>
        fatBuffer[..ENTRIES] == old(Table()) && disk[..] == Spilled(old(disk[..]), fatBuffer[..], 0, c.data)
      ensures stop.NoCluster? ==> TableFull()
      ensures stop.NoCluster? || stop.TooLarge? ==> Contents() == old(Contents())
      ensures stop.Going? ==> Performs(c, old(files[c.f].cluster), op) && FileStep(old(Contents()), op, Contents())
      ensures stop.Going? ==> files[c.f].cluster == NextCluster(old(files[c.f].cluster), c, op)
      ensures stop.Going? ==> files[c.f].size == NextSize(old(files[c.f].size), c)
      ensures forall f <- files :: f != files[c.f] ==> f.cluster == old(f.cluster) && f.size == old(f.size)
    {
      var inode := files[c.f];
      stop := Going;
      match c
      case Init(_) => stop, op := ApplyInit(inode);
      case Remove(_) => op := ApplyRemove(inode);
      case Truncate(_) => op := ApplyTruncate(inode);
      case Store(_, data) => stop, op := ApplyStore(inode, data);
    }

    ghost function ClustersOf(files: seq<Inode>): (k: seq<word>)
      reads files
    {
      seq(|files|, i requires 0 <= i < |files| reads files => files[i].cluster)
    }

    ghost function SizesOf(files: seq<Inode>): (n: seq<nat>)
      reads files
    {
      seq(|files|, i requires 0 <= i < |files| reads files => files[i].size)
    }

    /** The handles of valid calls are separate. */
    lemma HandlesSeparate(files: seq<Inode>)
      requires Valid() && Handles(files)
      ensures Separate(ClustersOf(files), Contents())
    {
    }

    /** Apply, in terms of the clusters and sizes of all handles. */
    method ApplyNext(files: seq<Inode>, c: Command) returns (stop: Stop, ghost op: FileOp)
      requires Valid() && Handles(files) && c.f < |files|
      modifies this, fatBuffer, disk, files
      ensures Shape() && (!stop.Emptied? ==> Valid()) && (stop.Going? ==> Handles(files))
      ensures stop.NoCluster? ==> c.Init? && TableFull()
      ensures stop.TooLarge? ==> c.Store? && |c.data| / 512 > 65535
      ensures stop.Emptied? ==> c.Store? && c.data != [] && old(ClustersOf(files))[c.f] == 0
      ensures stop.NoCluster? || stop.TooLarge? ==> Contents() == old(Contents())
      ensures stop.Going? ==>
        Performs(c, old(ClustersOf(files))[c.f], op) && FileStep(old(Contents()), op, Contents())
      ensures forall g :: 0 <= g < |files| && g != c.f ==>
        files[g].cluster == old(ClustersOf(files))[g] && files[g].size == old(SizesOf(files))[g]
      ensures stop.Going? ==>
        && ClustersOf(files) == (var k := old(ClustersOf(files)); k[c.f := NextCluster(k[c.f], c, op)])
        && SizesOf(files) == (var n := old(SizesOf(files)); n[c.f := NextSize(n[c.f], c)])
    {
      ghost var k, n := ClustersOf(files), SizesOf(files);
      assert Distinct(files);
      stop, op := Apply(files, c);
      forall g | 0 <= g < |files| && g != c.f ensures files[g].cluster == k[g] && files[g].size == n[g] {
        assert files[g] != files[c.f];
      }
    }

    /**
     * Any run of calls is a run of the store of files, call for call, until it stops; `h` has the files before and
     * after each call.
     */
    method Run(files: seq<Inode>, cs: seq<Command>)
      returns (done: nat, stop: Stop, ghost h: seq<Files>, ghost ops: seq<FileOp>)
      requires Valid() && Handles(files) && Named(cs, |files|)
      modifies this, fatBuffer, disk, files
      ensures |ops| == done <= |cs| && (stop.Going? <==> done == |cs|)
      ensures Performed(old(ClustersOf(files)), cs, ops) && FileRun(h, ops) && h[0] == old(Contents())
      ensures Shape() && (!stop.Emptied? ==> Valid() && h[done] == Contents()) && (stop.Going? ==> Handles(files))
      ensures stop.NoCluster? ==> cs[done].Init? && TableFull()
      ensures stop.TooLarge? ==> cs[done].Store? && |cs[done].data| / 512 > 65535
      ensures stop.Emptied? ==>
        cs[done].Store? && cs[done].data != [] && Held(old(ClustersOf(files)), cs, ops, done)[cs[done].f] == 0
      ensures forall g :: 0 <= g < |files| && (stop.Going? || g != cs[done].f) ==>
        && files[g].cluster == Held(old(ClustersOf(files)), cs, ops, done)[g]
        && files[g].size == Sizes(old(SizesOf(files)), cs, done)[g]
    {
      assert Shape();
      hide FileStep, Handles, Valid, Contents, Performs, NextCluster, NextSize;
      hide Performed, FileRun, TableFull, Held, Sizes;
      PerformedNone(ClustersOf(files), SizesOf(files), cs);
      FileRunNone(Contents());
      ghost var k0, n0 := ClustersOf(files), SizesOf(files);
      done, stop, h, ops := 0, Going, [Contents()], [];
      while done < |cs|
        invariant |ops| == done <= |cs| && Valid() && Handles(files) && stop.Going?
        invariant Performed(k0, cs, ops) && FileRun(h, ops) && h[0] == old(Contents()) && h[done] == Contents()
        invariant ClustersOf(files) == Held(k0, cs, ops, done) && SizesOf(files) == Sizes(n0, cs, done)
      {
        ghost var op;
        stop, op := ApplyNext(files, cs[done]);
        if !stop.Going? { return; }
        PerformedNext(k0, cs, ops, op);
        SizesNext(n0, cs, done);
        FileRunExtends(h, ops, op, Contents());
        h, ops, done := h + [Contents()], ops + [op], done + 1;
      }
    }

    /**
     * Data is stored in a file, then come any calls on other handles, then the file is read. Unless one of them stores
     * through an empty handle, the file has the data over its old bytes; so if its chain has the right length, reading
     * gives exactly the data, filled up with zeros.
     */
    method StoreThenRead(files: seq<Inode>, f: nat, data: seq<byte>, cs: seq<Command>)
      returns (stop: Stop, r: ReadResult, ghost stale: seq<byte>, ghost ops: seq<FileOp>)
      requires Valid() && Handles(files) && f < |files| && files[f].cluster != 0
      requires data != [] && |data| / 512 <= 65535 && Named(cs, |files|) && forall c <- cs :: c.f != f
      modifies this, fatBuffer, disk, files
      ensures 0 < |ops| <= 1 + |cs| && Performed(old(ClustersOf(files)), [Store(f, data)] + cs, ops)
      ensures stop.Emptied? ==> |ops| <= |cs| && (var c := cs[|ops| - 1];
        c.Store? && c.data != [] && Held(old(ClustersOf(files)), [Store(f, data)] + cs, ops, |ops|)[c.f] == 0)
      ensures !stop.Emptied? ==> |stale| == 512 * Clusters(|data|)
      ensures !stop.Emptied? ==> r == ReadOf(Overwritten(old(Contents()[files[f].cluster]), data), |data|, stale)
      ensures !stop.Emptied? && |old(Contents()[files[f].cluster])| == 512 * Clusters(|data|) ==>
        Delivers(r, data) && r == Bytes(ZeroFilled(data))
    {
      hide Overwritten, ZeroFilled, Delivers, ReadOf, Performed, FileRun, Sizes, FileStep, Separate;
      var all := [Store(f, data)] + cs;
      ghost var k0, n0 := ClustersOf(files), SizesOf(files);
      HandlesSeparate(files);
      ghost var n := |chains[files[f].cluster]|;
      assert Owns(Table(), chains, files[f].cluster);
      var done;
      ghost var h;
      done, stop, h, ops := Run(files, all);
      r, stale := Empty, [];
      if stop.Emptied? { return; }
      StoredFirst(k0, n0, all, ops, h, n);
      r, stale := ReadFile(files[f]);
      ReadExactly(data, stale);
    }
  }
}
