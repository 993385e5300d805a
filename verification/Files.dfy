/** Writing through an open file, in chunks that keep each transaction within
    the log's budget for one operation. */
module Files {
  import opened Bitmap
  import opened Blocks
  import opened Dinodes
  import opened DiskLayout
  import opened Fs
  import opened LogSteps
  import opened Params
  import opened Transactions

  const CHUNK := (MAXOPBLOCKS - 1 - 1 - 2) / 2 * BSIZE

  lemma {:induction false} AtSize(v: View, i: nat, slots: set<nat>)
    requires i < |v.tab|
    ensures |At(v, i, slots)| <= |slots|
    decreases |slots|
  {
    hide View.A;
    if slots != {} {
      var s :| s in slots;
      AtSize(v, i, slots - {s});
      if s < NSLOTS {
        assert At(v, i, slots) <= At(v, i, slots - {s}) + {v.A(i, s)};
        Smaller(At(v, i, slots), At(v, i, slots - {s}) + {v.A(i, s)});
      } else {
        Smaller(At(v, i, slots), At(v, i, slots - {s}));
      }
    } else {
      assert At(v, i, slots) == {};
    }
  }

  lemma {:induction false} Smaller(a: set<nat>, b: set<nat>)
    requires a <= b
    ensures |a| <= |b|
  {
    assert b == a + (b - a);
  }

  lemma {:induction false} SlotsSize(lo: nat, n: nat)
    ensures |set bn: nat {:trigger SlotOf(bn)} | lo <= bn < lo + n :: SlotOf(bn)| <= n
  {
    hide SlotOf;
    var s := set bn: nat {:trigger SlotOf(bn)} | lo <= bn < lo + n :: SlotOf(bn);
    if n == 0 {
      assert s == {};
    } else {
      SlotsSize(lo, n - 1);
      assert s == (set bn: nat {:trigger SlotOf(bn)} | lo <= bn < lo + (n - 1) :: SlotOf(bn)) + {SlotOf(lo + n - 1)};
    }
  }

  lemma OneBitmap(sb: Super)
    requires sb.Good() && sb.size < BPB
    ensures sb.Bitmap() == {sb.bmapstart}
  {
    assert sb.IsBitmap(sb.bmapstart);
  }

  lemma FourBlocks(off: nat, end: nat)
    requires off <= end <= off + CHUNK
    ensures Left(off, end) <= 4
  {
  }

  lemma BudgetParts(sb: Super, v: View, i: nat, off: nat, end: nat)
    requires sb.Good() && sb.size < BPB && i < |v.tab| && off <= end <= off + CHUNK
    ensures |sb.Bitmap()| == 1 && |At(v, i, Slots(off, end))| <= 5
  {
    hide View.A, At, SlotOf, Left, Super.Good, Super.Bitmap;
    OneBitmap(sb);
    FourBlocks(off, end);
    SlotsSize(off / BSIZE, Left(off, end));
    AtSize(v, i, Slots(off, end));
  }

  /** One chunk of filewrite logs at most seven distinct blocks when one
      bitmap block covers the disk: it may straddle four data blocks. */
  lemma ChunkBudget(sb: Super, v: View, i: nat, off: nat, end: nat, logged: set<nat>)
    requires sb.Good() && sb.size < BPB && i < |v.tab| && off <= end <= off + CHUNK
    requires logged <= sb.Bitmap() + At(v, i, Slots(off, end)) + {sb.IBlock(i)}
    ensures |logged| <= 7
  {
    hide View.A, At, SlotOf, Slots, Super.Bitmap, Super.Good;
    BudgetParts(sb, v, i, off, end);
    Smaller(logged, sb.Bitmap() + At(v, i, Slots(off, end)) + {sb.IBlock(i)});
  }

  /** An open file. */
  class File {
    var writable: bool
    var off: Word
    const ip: Inode

    constructor (ip: Inode, writable: bool)
    {
      this.ip, this.writable, this.off := ip, writable, 0;
    }
  }

  lemma OverlayNext(c: seq<Byte>, off: nat, src: seq<Byte>, i: nat, m: nat)
    requires off <= |c| && i + m <= |src|
    ensures off + i <= |Overlay(c, off, src[..i])|
    ensures Overlay(Overlay(c, off, src[..i]), off + i, src[i..i + m]) == Overlay(c, off, src[..i + m])
    ensures off + i + m <= |Overlay(c, off, src[..i + m])|
  {
    hide Overlay;
    OverlayTwice(c, off, src[..i], src[i..i + m]);
    OverlaySize(c, off, src[..i + m]);
    assert src[..i] + src[i..i + m] == src[..i + m];
  }

  ghost predicate Synced(fs: Fs, ip: Inode)
    reads fs, ip
  {
    fs.Valid(ip) && ip.d.typ != T_DEV && fs.dinode[ip.inum] == ip.d
  }

  /** Inodes other than `i`, and their contents, are as they were. */
  ghost predicate Elsewhere(store0: seq<Block>, tab0: seq<Dinode>, store: seq<Block>, tab: seq<Dinode>, i: nat) {
    |tab| == |tab0| && forall j: nat {:trigger tab[j]} :: j < |tab| && j != i ==>
      tab[j] == tab0[j] && Contents(store, tab[j]) == Contents(store0, tab0[j])
  }

  lemma ElsewhereSame(store: seq<Block>, tab: seq<Dinode>, i: nat)
    ensures Elsewhere(store, tab, store, tab, i)
  {
  }

  lemma ElsewhereMeans(store0: seq<Block>, tab0: seq<Dinode>, store: seq<Block>, tab: seq<Dinode>, i: nat)
    requires Elsewhere(store0, tab0, store, tab, i)
    ensures |tab| == |tab0| && forall j: nat :: j < |tab| && j != i ==>
      tab[j] == tab0[j] && Contents(store, tab[j]) == Contents(store0, tab0[j])
  {
    hide Contents;
  }

  lemma ElsewhereTwice(s0: seq<Block>, t0: seq<Dinode>, s1: seq<Block>, t1: seq<Dinode>, s2: seq<Block>,
      t2: seq<Dinode>, i: nat)
    requires Elsewhere(s0, t0, s1, t1, i) && Elsewhere(s1, t1, s2, t2, i)
    ensures Elsewhere(s0, t0, s2, t2, i)
  {
    hide Contents;
    assert forall j: nat :: j < |t1| && j != i ==> t1[j] == t0[j];
  }

  /** There are free blocks enough to write up to `lim`. */
  ghost predicate Room(fs: Fs, ip: Inode, lim: nat)
    reads fs, ip
  {
    ip.inum < |fs.dinode| && Spare(fs.sb, fs.store) >= Wanted(fs.V(ip), ip.inum, ip.d.size, lim)
  }

  lemma SyncedDone(fs: Fs, ip: Inode)
    requires Synced(fs, ip) && fs.Journaled()
    ensures Done(fs.sb, TxnOf(fs))
  {
    hide Ok, InLog;
    assert fs.V(ip) == View(fs.store, fs.dinode, fs.owner);
  }

  /** One transaction of filewrite, up to end_op: every change has been logged,
      in at most seven blocks. */
  method FileChunk(fs: Fs, ip: Inode, off: Word, src: seq<Byte>, ghost lim: nat) returns (r: int)
    requires Synced(fs, ip) && fs.sb.size < BPB && |src| <= CHUNK
    requires Accepts(ip.d, off, |src|) ==> off + |src| <= lim && Room(fs, ip, lim)
    modifies fs, ip`d
    ensures Synced(fs, ip) && |fs.logged| <= 7 && Done(fs.sb, TxnOf(fs)) && fs.Writing(ip.inum)
    ensures fs.op == old(fs.op) + 1 && TxnOf(fs).v0 == old(View(fs.store, fs.dinode, fs.owner))
    ensures old(Room(fs, ip, lim)) ==> Room(fs, ip, lim)
    ensures r == if old(Accepts(ip.d, off, |src|)) then |src| else -1
    ensures r != -1 ==> off <= |old(Contents(fs.store, ip.d))|
    ensures Contents(fs.store, ip.d) ==
      if r == -1 then old(Contents(fs.store, ip.d)) else Overlay(old(Contents(fs.store, ip.d)), off, src)
    ensures Elsewhere(old(fs.store), old(fs.dinode), fs.store, fs.dinode, ip.inum)
    ensures ip.d.size == |Contents(fs.store, ip.d)| && (r == -1 ==> ip.d == old(ip.d))
  {
    hide Ok, Spare, Wanted, Super.Bitmap, At, Slots, View.A, Contents, Overlay, InLog, Mine;
    ContentsSize(fs.store, ip.d);
    SyncedParts(fs, ip);
    fs.BeginOp();
    r := fs.Writei(ip, src, off, None, lim);
    ContentsSize(fs.store, ip.d);
    ChunkBudget(fs.sb, fs.V(ip), ip.inum, off, off + |src|, fs.logged);
    SyncedDone(fs, ip);
  }

  lemma SyncedParts(fs: Fs, ip: Inode)
    requires Synced(fs, ip)
    ensures fs.Valid(ip) && ip.inum < |fs.dinode| && fs.sb.Good() && |fs.store| == fs.sb.size
    ensures |fs.dinode| == fs.sb.ninodes && ip.d.typ != T_DEV && fs.dinode[ip.inum] == ip.d
  {
  }

  /** filewrite, a chunk to a transaction. `done` bytes are in place at the end:
      all of them, or as many whole chunks as fit in a file of the largest size,
      or none if the offset lies past the end. `ts` are the transactions. */
  method FileWrite(fs: Fs, f: File, src: seq<Byte>) returns (r: int, ghost done: nat, ghost ts: seq<Txn>)
    requires Synced(fs, f.ip) && fs.sb.size < BPB && |src| < UINT / 2
    requires f.writable && f.off <= f.ip.d.size ==> Room(fs, f.ip, f.off + |src|)
    modifies fs, f`off, f.ip`d
    ensures Synced(fs, f.ip) && Chunks(ts, f.ip.inum, old(fs.op))
    ensures Serial(fs.sb, ts, old(View(fs.store, fs.dinode, fs.owner)), View(fs.store, fs.dinode, fs.owner))
    ensures done <= |src| && f.off == old(f.off) + done && r == (if done == |src| && f.writable then |src| else -1)
    ensures !f.writable ==> done == 0
    ensures f.writable && done < |src| ==>
      done % 1536 == 0 && (old(f.off > f.ip.d.size) || f.off + Min(|src| - done, 1536) > 140 * 512)
    ensures old(f.off > f.ip.d.size) ==> done == 0 && Contents(fs.store, f.ip.d) == old(Contents(fs.store, f.ip.d))
    ensures old(f.off <= f.ip.d.size) ==> old(f.off) <= |old(Contents(fs.store, f.ip.d))|
    ensures old(f.off <= f.ip.d.size) ==>
      Contents(fs.store, f.ip.d) == Overlay(old(Contents(fs.store, f.ip.d)), old(f.off), src[..done])
    ensures Elsewhere(old(fs.store), old(fs.dinode), fs.store, fs.dinode, f.ip.inum)
    ensures |fs.dinode| == old(|fs.dinode|) && forall j: nat :: j < |fs.dinode| && j != f.ip.inum ==>
      fs.dinode[j] == old(fs.dinode)[j] && Contents(fs.store, fs.dinode[j]) == old(Contents(fs.store, fs.dinode[j]))
  {
    hide Synced, Overlay, Progress, Contents, Fs.Valid, Fs.V, Room, Elsewhere, Done, Serial, Mine;
    r, done, ts := -1, 0, [];
    SerialNone(fs.sb, View(fs.store, fs.dinode, fs.owner));
    var i, n := 0, |src|;
    ghost var c, off0 := Contents(fs.store, f.ip.d), f.off;
    ContentsSize(fs.store, f.ip.d);
    Start(fs, f, c, src);
    ElsewhereSame(fs.store, fs.dinode, f.ip.inum);
    ghost var s0, t0, v0 := fs.store, fs.dinode, View(fs.store, fs.dinode, fs.owner);
    if !f.writable {
      ElsewhereMeans(s0, t0, fs.store, fs.dinode, f.ip.inum);
      Finish(fs, f, c, off0, src, 0);
      return;
    }
    while i < n
      invariant Serial(fs.sb, ts, v0, View(fs.store, fs.dinode, fs.owner))
      invariant Chunks(ts, f.ip.inum, old(fs.op)) && fs.op == old(fs.op) + |ts|
      invariant i <= n && (i == n || i % CHUNK == 0) && Progress(fs, f, c, off0, src, i)
      invariant Elsewhere(s0, t0, fs.store, fs.dinode, f.ip.inum)
    {
      var n1 := Min(n - i, CHUNK);
      NextChunk(i, n);
      ghost var s1, t1 := fs.store, fs.dinode;
      r := Round(fs, f, src, i, n1, c, off0);
      SerialMore(fs.sb, ts, v0, TxnOf(fs));
      ChunksMore(ts, TxnOf(fs), f.ip.inum, old(fs.op));
      ts := ts + [TxnOf(fs)];
      ElsewhereTwice(s0, t0, s1, t1, fs.store, fs.dinode, f.ip.inum);
      if r < 0 { break; }
      i := i + r;
    }
    done := i;
    r := if i == n then n else -1;
    ElsewhereMeans(s0, t0, fs.store, fs.dinode, f.ip.inum);
    Finish(fs, f, c, off0, src, done);
  }

  /** Transactions with ids after `op`, each of which writes to the file with
      inode `i` only and logs at most seven blocks. */
  ghost predicate Chunks(ts: seq<Txn>, i: nat, op: nat) {
    forall k :: 0 <= k < |ts| ==> Chunk(ts[k], i, op + 1 + k)
  }

  ghost predicate Chunk(t: Txn, i: nat, op: nat) {
    t.op == op && |t.logged| <= 7 && Mine(t.steps, t.v0.owner, t.v.owner, i)
  }

  lemma ChunksMore(ts: seq<Txn>, t: Txn, i: nat, op: nat)
    requires Chunks(ts, i, op) && Chunk(t, i, op + 1 + |ts|)
    ensures Chunks(ts + [t], i, op)
  {
    hide Chunk;
  }

  /** `i` bytes of `src` have been written, if the offset was not past the end. */
  ghost predicate Progress(fs: Fs, f: File, c: seq<Byte>, off0: nat, src: seq<Byte>, i: nat)
    reads fs, f, f.ip
  {
    && i <= |src| && f.off == off0 + i && Synced(fs, f.ip)
    && if off0 <= |c|
       then
         && f.off <= f.ip.d.size && Contents(fs.store, f.ip.d) == Overlay(c, off0, src[..i])
         && (f.writable ==> Room(fs, f.ip, off0 + |src|))
       else i == 0 && f.ip.d.size == |c| && Contents(fs.store, f.ip.d) == c
  }

  lemma Start(fs: Fs, f: File, c: seq<Byte>, src: seq<Byte>)
    requires Synced(fs, f.ip) && c == Contents(fs.store, f.ip.d)
    requires f.writable && f.off <= f.ip.d.size ==> Room(fs, f.ip, f.off + |src|)
    ensures Progress(fs, f, c, f.off, src, 0)
  {
    hide Synced, Room, Contents;
    ContentsSize(fs.store, f.ip.d);
    assert src[..0] == [];
    if f.off <= |c| { OverlayNothing(c, f.off); }
  }

  lemma Finish(fs: Fs, f: File, c: seq<Byte>, off0: nat, src: seq<Byte>, i: nat)
    requires Progress(fs, f, c, off0, src, i)
    ensures i <= |src| && f.off == off0 + i && Synced(fs, f.ip) && (off0 > |c| ==> i == 0)
    ensures Contents(fs.store, f.ip.d) == if off0 > |c| then c else Overlay(c, off0, src[..i])
  {
    hide Synced, Room, Contents, Overlay;
  }

  lemma NextChunk(i: nat, n: nat)
    requires i < n && i % CHUNK == 0
    ensures var j := i + Min(n - i, CHUNK); j == n || j % CHUNK == 0
  {
    assert CHUNK == 1536;
  }

  /** One round of the loop. */
  method Round(fs: Fs, f: File, src: seq<Byte>, i: nat, n1: nat, ghost c: seq<Byte>, ghost off0: nat) returns (r: int)
    requires Progress(fs, f, c, off0, src, i) && fs.sb.size < BPB && f.writable && 0 < n1 <= CHUNK && i + n1 <= |src|
    modifies fs, f`off, f.ip`d
    ensures r == n1 || r == -1
    ensures Progress(fs, f, c, off0, src, if r == -1 then i else i + n1) && |fs.logged| <= 7
    ensures Done(fs.sb, TxnOf(fs)) && fs.Writing(f.ip.inum)
    ensures fs.op == old(fs.op) + 1 && TxnOf(fs).v0 == old(View(fs.store, fs.dinode, fs.owner))
    ensures Elsewhere(old(fs.store), old(fs.dinode), fs.store, fs.dinode, f.ip.inum)
    ensures r == -1 <==> off0 > |c| || off0 + i + n1 > MAXFILE * BSIZE
  {
    hide Synced, Contents, Overlay, Fs.Valid, Fs.V, Room, Accepts, Done, Mine;
    Fits(fs, f.ip, f.off, n1);
    r := FileChunk(fs, f.ip, f.off, src[i..i + n1], off0 + |src|);
    if r > 0 {
      f.off := f.off + r;
      OverlayNext(c, off0, src, i, n1);
    }
  }

  lemma Fits(fs: Fs, ip: Inode, off: nat, n: nat)
    requires Synced(fs, ip)
    ensures Accepts(ip.d, off, n) <==> off <= ip.d.size && off + n <= MAXFILE * BSIZE
  {
  }
}
