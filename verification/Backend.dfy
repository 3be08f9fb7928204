/** Copying between host memory and the DRAM backend (femu/backend/dram.c) or a buffer
    (femu/dma.c) along a scatter/gather list whose segments lie in host memory. */
module Backends {
  import opened Prps

  type Byte = bv8

  /** The bytes the segments name, in order. */
  ghost function Gather(host: seq<Byte>, segs: seq<Segment>): (r: seq<Byte>)
    requires InHost(host, segs)
    ensures |r| == Total(segs)
  {
    if segs == [] then []
    else host[segs[0].base..segs[0].base + segs[0].len] + Gather(host, segs[1..])
  }

  /** Host memory after data has been stored along the segments. */
  ghost function Scatter(host: seq<Byte>, segs: seq<Segment>, data: seq<Byte>): (r: seq<Byte>)
    requires InHost(host, segs) && |data| == Total(segs)
    ensures |r| == |host|
    decreases |segs|
  {
    if segs == [] then host
    else Scatter(Put(host, segs[0].base, data[..segs[0].len]), segs[1..], data[segs[0].len..])
  }

  ghost function Put(host: seq<Byte>, base: nat, data: seq<Byte>): (r: seq<Byte>)
    requires base + |data| <= |host|
    ensures |r| == |host|
  {
    host[..base] + data + host[base + |data|..]
  }

  ghost predicate InHost(host: seq<Byte>, segs: seq<Segment>) {
    forall k :: 0 <= k < |segs| ==> segs[k].base + segs[k].len <= |host|
  }

  ghost predicate Apart(x: Segment, y: Segment) {
    x.base + x.len <= y.base || y.base + y.len <= x.base
  }

  ghost predicate Disjoint(segs: seq<Segment>) {
    forall i, j :: 0 <= i < j < |segs| ==> Apart(segs[i], segs[j])
  }

  /** Storing elsewhere does not change what a segment holds. */
  lemma PutElsewhere(host: seq<Byte>, base: nat, data: seq<Byte>, x: Segment)
    requires base + |data| <= |host| && x.base + x.len <= |host| && Apart(Segment(base, |data|), x)
    ensures Put(host, base, data)[x.base..x.base + x.len] == host[x.base..x.base + x.len]
  {
  }

  lemma PutHere(host: seq<Byte>, base: nat, data: seq<Byte>)
    requires base + |data| <= |host|
    ensures Put(host, base, data)[base..base + |data|] == data
  {
  }

  lemma {:induction false} ScatterElsewhere(host: seq<Byte>, segs: seq<Segment>, data: seq<Byte>, x: Segment)
    requires InHost(host, segs) && |data| == Total(segs) && x.base + x.len <= |host|
    requires forall k :: 0 <= k < |segs| ==> Apart(segs[k], x)
    ensures Scatter(host, segs, data)[x.base..x.base + x.len] == host[x.base..x.base + x.len]
    decreases |segs|
  {
    hide Put;
    if segs != [] {
      var host1 := Put(host, segs[0].base, data[..segs[0].len]);
      PutElsewhere(host, segs[0].base, data[..segs[0].len], x);
      ScatterElsewhere(host1, segs[1..], data[segs[0].len..], x);
    }
  }

  lemma TailDisjoint(segs: seq<Segment>)
    requires segs != [] && Disjoint(segs)
    ensures Disjoint(segs[1..]) && forall k :: 0 <= k < |segs[1..]| ==> Apart(segs[1..][k], segs[0])
  {
    assert forall k :: 0 <= k < |segs[1..]| ==> segs[1..][k] == segs[k + 1];
  }

  lemma SameSize(host: seq<Byte>, host': seq<Byte>, segs: seq<Segment>)
    requires |host'| == |host| && InHost(host, segs)
    ensures InHost(host', segs)
  {
  }

  lemma NothingToScatter(host: seq<Byte>, data: seq<Byte>)
    requires InHost(host, []) && |data| == Total([])
    ensures Gather(Scatter(host, [], data), []) == data
  {
  }

  lemma TotalOfCons(segs: seq<Segment>)
    requires segs != []
    ensures Total(segs) == segs[0].len + Total(segs[1..])
  {
  }

  lemma ScatterCons(host: seq<Byte>, segs: seq<Segment>, data: seq<Byte>)
    requires InHost(host, segs) && |data| == Total(segs) && segs != []
    ensures segs[0].len <= |data| && segs[0].base + segs[0].len <= |host|
    ensures var host1 := Put(host, segs[0].base, data[..segs[0].len]);
            && InHost(host1, segs[1..]) && |data[segs[0].len..]| == Total(segs[1..])
            && Scatter(host, segs, data) == Scatter(host1, segs[1..], data[segs[0].len..])
  {
    hide Put;
    TotalOfCons(segs);
  }

  lemma GatherCons(host: seq<Byte>, segs: seq<Segment>)
    requires InHost(host, segs) && segs != []
    ensures InHost(host, segs[1..])
    ensures Gather(host, segs) == host[segs[0].base..segs[0].base + segs[0].len] + Gather(host, segs[1..])
  {
    hide InHost;
    TailInHost(host, segs);
  }

  /** What is stored along disjoint segments is found there again. */
  lemma {:induction false} GatherScatter(host: seq<Byte>, segs: seq<Segment>, data: seq<Byte>)
    requires InHost(host, segs) && |data| == Total(segs) && Disjoint(segs)
    ensures Gather(Scatter(host, segs, data), segs) == data
    decreases |segs|
  {
    hide Put, InHost, Disjoint, Apart, Gather, Scatter, Total;
    if segs == [] {
      NothingToScatter(host, data);
    } else {
      TotalOfCons(segs);
      var x, first, rest := segs[0], data[..segs[0].len], data[segs[0].len..];
      TailInHost(host, segs);
      TailDisjoint(segs);
      var host1 := Put(host, x.base, first);
      SameSize(host, host1, segs[1..]);
      PutHere(host, x.base, first);
      ScatterElsewhere(host1, segs[1..], rest, x);
      GatherScatter(host1, segs[1..], rest);
      SameSize(host, Scatter(host1, segs[1..], rest), segs);
      ScatterCons(host, segs, data);
      GatherCons(Scatter(host1, segs[1..], rest), segs);
      assert data == first + rest;
    }
  }

  /** Byte k of what the segments name is the byte at the address of byte k. */
  lemma {:induction false} GatherByte(host: seq<Byte>, segs: seq<Segment>, k: nat)
    requires InHost(host, segs) && k < Total(segs)
    ensures AddressOf(segs, k) < |host| && Gather(host, segs)[k] == host[AddressOf(segs, k)]
    decreases |segs|
  {
    hide InHost;
    TotalOfCons(segs);
    GatherCons(host, segs);
    TailInHost(host, segs);
    if k >= segs[0].len {
      GatherByte(host, segs[1..], k - segs[0].len);
    }
  }

  // ----- backend_rw -----------------------------------------------------------------------------------

  lemma PutAt(was: seq<Byte>, base: nat, data: seq<Byte>, now: seq<Byte>)
    requires base + |data| <= |was| == |now|
    requires forall j :: 0 <= j < |was| ==> now[j] == if base <= j < base + |data| then data[j - base] else was[j]
    ensures now == Put(was, base, data)
  {
  }

  /** `dma_memory_rw` towards the device. */
  method CopyIn(mb: array<Byte>, off: nat, host: array<Byte>, base: nat, len: nat)
    requires mb != host && off + len <= mb.Length && base + len <= host.Length
    modifies mb
    ensures mb[..] == Put(old(mb[..]), off, host[base..base + len])
  {
    ghost var was := mb[..];
    for k := 0 to len
      invariant forall j :: 0 <= j < mb.Length ==> mb[j] == if off <= j < off + k then host[base + j - off] else was[j]
    {
      mb[off + k] := host[base + k];
    }
    PutAt(was, off, host[base..base + len], mb[..]);
  }

  /** `dma_memory_rw` from the device. */
  method CopyOut(mb: array<Byte>, off: nat, host: array<Byte>, base: nat, len: nat)
    requires mb != host && off + len <= mb.Length && base + len <= host.Length
    modifies host
    ensures host[..] == Put(old(host[..]), base, mb[off..off + len])
  {
    ghost var was := host[..];
    for k := 0 to len
      invariant forall j :: 0 <= j < host.Length ==> host[j] == if base <= j < base + k then mb[off + j - base] else was[j]
    {
      host[base + k] := mb[off + k];
    }
    PutAt(was, base, mb[off..off + len], host[..]);
  }

  lemma {:induction false} SplitTotal(segs: seq<Segment>, k: nat)
    requires k < |segs|
    ensures Total(segs[..k]) + segs[k].len == Total(segs[..k + 1]) <= Total(segs)
  {
    assert segs[..k + 1] == segs[..k] + [segs[k]];
    TotalAppend(segs[..k], [segs[k]]);
    assert Total([segs[k]]) == segs[k].len;
    assert segs == segs[..k + 1] + segs[k + 1..];
    TotalAppend(segs[..k + 1], segs[k + 1..]);
  }

  lemma {:induction false} GatherAppend(host: seq<Byte>, a: seq<Segment>, b: seq<Segment>)
    requires InHost(host, a + b) && InHost(host, a) && InHost(host, b)
    ensures Gather(host, a + b) == Gather(host, a) + Gather(host, b)
  {
    hide InHost;
    if a == [] {
      assert a + b == b;
    } else {
      assert (a + b)[1..] == a[1..] + b;
      TailInHost(host, a);
      TailInHost(host, a + b);
      GatherAppend(host, a[1..], b);
      var first := host[a[0].base..a[0].base + a[0].len];
      assert first + (Gather(host, a[1..]) + Gather(host, b)) == (first + Gather(host, a[1..])) + Gather(host, b);
    }
  }

  lemma TailInHost(host: seq<Byte>, a: seq<Segment>)
    requires InHost(host, a) && a != []
    ensures InHost(host, a[1..]) && a[0].base + a[0].len <= |host|
  {
  }

  lemma PartInHost(host: seq<Byte>, segs: seq<Segment>, k: nat)
    requires InHost(host, segs) && k < |segs|
    ensures InHost(host, segs[..k]) && InHost(host, [segs[k]]) && InHost(host, segs[..k + 1])
  {
  }

  lemma GatherOneMore(host: seq<Byte>, segs: seq<Segment>, k: nat)
    requires InHost(host, segs) && k < |segs|
    ensures InHost(host, segs[..k + 1])
    ensures Gather(host, segs[..k + 1])
            == Gather(host, segs[..k]) + host[segs[k].base..segs[k].base + segs[k].len]
  {
    PartInHost(host, segs, k);
    assert segs[..k + 1] == segs[..k] + [segs[k]];
    GatherAppend(host, segs[..k], [segs[k]]);
    GatherOne(host, segs[k]);
  }

  lemma GatherOne(host: seq<Byte>, x: Segment)
    requires InHost(host, [x])
    ensures x.base + x.len <= |host| && Gather(host, [x]) == host[x.base..x.base + x.len]
  {
    hide InHost;
    TailInHost(host, [x]);
    assert [x][1..] == [];
    var data := host[x.base..x.base + x.len];
    assert Gather(host, []) == [] && data + [] == data;
  }

  /** `backend_rw` for a write: the bytes the segments name become the bytes at `off`, and
      no other byte of the backend changes. */
  method BackendWrite(mb: array<Byte>, off: nat, host: array<Byte>, segs: seq<Segment>)
    requires mb != host && InHost(host[..], segs) && off + Total(segs) <= mb.Length
    modifies mb
    ensures mb[..] == Put(old(mb[..]), off, Gather(host[..], segs))
  {
    hide Gather, Total, Put, InHost;
    var i, mbOft := 0, off;
    StartOfCopy(host[..], segs);
    NothingPut(mb[..], off);
    while i < |segs|
      invariant i <= |segs| && mbOft == off + Total(segs[..i]) <= off + Total(segs)
      invariant InHost(host[..], segs[..i])
      invariant mb[..] == Put(old(mb[..]), off, Gather(host[..], segs[..i]))
    {
      SplitTotal(segs, i);
      GatherOneMore(host[..], segs, i);
      SegInHost(host[..], segs, i);
      SegmentOn(old(mb[..]), off, Gather(host[..], segs[..i]), host[segs[i].base..segs[i].base + segs[i].len]);
      CopyIn(mb, mbOft, host, segs[i].base, segs[i].len);
      mbOft := mbOft + segs[i].len;
      i := i + 1;
    }
    assert segs[..i] == segs;
  }

  lemma NothingPut(was: seq<Byte>, off: nat)
    requires off <= |was|
    ensures Put(was, off, []) == was
  {
  }

  lemma SegmentOn(was: seq<Byte>, off: nat, done: seq<Byte>, data: seq<Byte>)
    requires off + |done| + |data| <= |was|
    ensures Put(Put(was, off, done), off + |done|, data) == Put(was, off, done + data)
  {
  }

  lemma StartOfCopy(host: seq<Byte>, segs: seq<Segment>)
    ensures Total(segs[..0]) == 0 && InHost(host, segs[..0]) && Gather(host, segs[..0]) == []
  {
  }

  /** `backend_rw` for a read: the bytes at `off` are stored along the segments. */
  method BackendRead(mb: array<Byte>, off: nat, host: array<Byte>, segs: seq<Segment>)
    requires mb != host && InHost(host[..], segs) && off + Total(segs) <= mb.Length
    modifies host
    ensures InHost(old(host[..]), segs)
    ensures host[..] == Scatter(old(host[..]), segs, mb[off..off + Total(segs)])
  {
    hide Total, Put;
    var i, mbOft := 0, off;
    ghost var goal := Scatter(host[..], segs, mb[off..off + Total(segs)]);
    StartOfCopy(host[..], segs);
    assert segs[0..] == segs;
    while i < |segs|
      invariant i <= |segs| && mbOft == off + Total(segs[..i])
      invariant Total(segs[..i]) + Total(segs[i..]) == Total(segs) && InHost(host[..], segs[i..])
      invariant goal == Scatter(host[..], segs[i..], mb[mbOft..off + Total(segs)])
    {
      SplitTotal(segs, i);
      TotalOfRest(segs, i);
      ScatterCons(host[..], segs[i..], mb[mbOft..off + Total(segs)]);
      assert segs[i..][1..] == segs[i + 1..];
      assert mb[mbOft..off + Total(segs)][..segs[i].len] == mb[mbOft..mbOft + segs[i].len];
      assert mb[mbOft..off + Total(segs)][segs[i].len..] == mb[mbOft + segs[i].len..off + Total(segs)];
      CopyOut(mb, mbOft, host, segs[i].base, segs[i].len);
      mbOft := mbOft + segs[i].len;
      i := i + 1;
    }
  }

  lemma TotalOfRest(segs: seq<Segment>, i: nat)
    requires i < |segs|
    ensures Total(segs[i..]) == segs[i].len + Total(segs[i + 1..])
  {
    assert segs[i..][1..] == segs[i + 1..];
  }

  /** Writing a range and reading it back, into pages of its own, returns the same bytes. */
  method WriteThenRead(mb: array<Byte>, off: nat, host: array<Byte>, from: seq<Segment>, to: seq<Segment>)
    requires mb != host && InHost(host[..], from) && InHost(host[..], to)
    requires Total(from) == Total(to) && off + Total(from) <= mb.Length && Disjoint(to)
    modifies mb, host
    ensures InHost(host[..], to) && Gather(host[..], to) == old(Gather(host[..], from))
  {
    hide Gather, Scatter, Total;
    ghost var data := Gather(host[..], from);
    BackendWrite(mb, off, host, from);
    assert mb[off..off + Total(to)] == data;
    GatherScatter(host[..], to, data);
    BackendRead(mb, off, host, to);
  }

  /** A little-endian number of n bytes. */
  function Number(host: seq<Byte>, a: nat, n: nat): nat
    requires a + n <= |host|
    decreases n
  {
    if n == 0 then 0 else host[a] as nat + 256 * Number(host, a + 1, n - 1)
  }

  /** Byte k of a number, from the lowest. */
  function ByteOf(x: nat, k: nat): nat {
    if k == 0 then x % 256 else ByteOf(x / 256, k - 1)
  }

  /** Byte k of the number at a is the byte at a + k. */
  lemma {:induction false} NumberIsLittleEndian(host: seq<Byte>, a: nat, n: nat, k: nat)
    requires a + n <= |host| && k < n
    ensures ByteOf(Number(host, a, n), k) == host[a + k] as nat
    decreases n
  {
    var low, high := host[a] as nat, Number(host, a + 1, n - 1);
    LowByte(low, high);
    if k > 0 {
      NumberIsLittleEndian(host, a + 1, n - 1, k - 1);
    }
  }

  lemma LowByte(low: nat, high: nat)
    requires low < 256
    ensures (low + 256 * high) % 256 == low && (low + 256 * high) / 256 == high
  {
  }

  /** The 64-bit numbers in host memory, by address.  Beyond its end 0 is read. */
  function Memory(host: seq<Byte>): nat -> nat {
    (a: nat) => if a + 8 <= |host| then Number(host, a, 8) else 0
  }

  /** A word in host memory is the eight bytes from its address on, the lowest first. */
  lemma MemoryIsLittleEndian(host: seq<Byte>, a: nat, k: nat)
    requires a + 8 <= |host|
    ensures ByteOf(Memory(host)(a), k) == if k < 8 then host[a + k] as nat else 0
  {
    if k < 8 {
      NumberIsLittleEndian(host, a, 8, k);
    } else {
      NoFurtherBytes(host, a, 8, k);
    }
  }

  lemma {:induction false} NoFurtherBytes(host: seq<Byte>, a: nat, n: nat, k: nat)
    requires a + n <= |host| && k >= n
    ensures ByteOf(Number(host, a, n), k) == 0
    decreases k
  {
    if k > 0 {
      if n == 0 {
        NoFurtherBytes(host, a, 0, k - 1);
      } else {
        LowByte(host[a] as nat, Number(host, a + 1, n - 1));
        NoFurtherBytes(host, a + 1, n - 1, k - 1);
      }
    }
  }

  /** `nvme_rw` once the request has passed its checks, with the assertion on the size of the
      list: a write puts the named bytes at `off`, a read stores those bytes along the list.
      The list of pointers is in the same host memory as the data, as it is when the request
      arrives. */
  method Rw(p: Pages, prp1: nat, prp2: nat, dataSize: nat, off: nat, isWrite: bool, mb: array<Byte>, host: array<Byte>)
    returns (ok: bool)
    requires p.Ok() && mb != host && dataSize > 0 && off + dataSize <= mb.Length
    requires var segs := Transfer(Memory(host[..]), p, prp1, prp2, dataSize); segs.Some? ==> InHost(host[..], segs.value)
    modifies mb, host
    ensures ok == Transfer(Memory(old(host[..])), p, prp1, prp2, dataSize).Some?
    ensures !(ok && isWrite) ==> mb[..] == old(mb[..])
    ensures !(ok && !isWrite) ==> host[..] == old(host[..])
    ensures ok ==>
              var segs := Transfer(Memory(old(host[..])), p, prp1, prp2, dataSize).value;
              && Total(segs) == dataSize
              && (isWrite ==> mb[..] == Put(old(mb[..]), off, Gather(host[..], segs)))
              && (!isWrite ==> host[..] == Scatter(old(host[..]), segs, mb[off..off + dataSize]))
    ensures ok ==>
              var segs := Transfer(Memory(old(host[..])), p, prp1, prp2, dataSize).value;
              isWrite || Disjoint(segs) ==>
                forall k :: 0 <= k < dataSize ==> AddressOf(segs, k) < host.Length && mb[off + k] == host[AddressOf(segs, k)]
  {
    hide Transfer, Gather, Scatter, Total, InPages, Memory, Put, AddressOf, Disjoint;
    var mem := Memory(host[..]);
    var qsg := new SgList();
    ok := MapPrp(mem, p, prp1, prp2, dataSize, qsg);
    if !ok {
      return;
    }
    TransferFits(mem, p, prp1, prp2, dataSize);
    assert dataSize == qsg.size;
    ghost var was := host[..];
    if isWrite {
      BackendWrite(mb, off, host, qsg.sg);
      PutIsThere(old(mb[..]), off, Gather(host[..], qsg.sg));
      WrittenBytes(mb[..], off, host[..], qsg.sg);
    } else {
      BackendRead(mb, off, host, qsg.sg);
      if Disjoint(qsg.sg) { ReadBytes(mb[..], off, was, host[..], qsg.sg); }
    }
  }

  lemma PutIsThere(mb: seq<Byte>, off: nat, data: seq<Byte>)
    requires off + |data| <= |mb|
    ensures Put(mb, off, data)[off..off + |data|] == data
  {
  }

  lemma WrittenBytes(mb: seq<Byte>, off: nat, host: seq<Byte>, segs: seq<Segment>)
    requires InHost(host, segs) && off + Total(segs) <= |mb| && mb[off..off + Total(segs)] == Gather(host, segs)
    ensures forall k :: 0 <= k < Total(segs) ==> AddressOf(segs, k) < |host| && mb[off + k] == host[AddressOf(segs, k)]
  {
    hide Gather, Total, InHost, AddressOf;
    forall k | 0 <= k < Total(segs) ensures AddressOf(segs, k) < |host| && mb[off + k] == host[AddressOf(segs, k)] {
      GatherByte(host, segs, k);
      assert mb[off..off + Total(segs)][k] == mb[off + k];
    }
  }

  lemma ReadBytes(mb: seq<Byte>, off: nat, was: seq<Byte>, host: seq<Byte>, segs: seq<Segment>)
    requires InHost(was, segs) && off + Total(segs) <= |mb| && host == Scatter(was, segs, mb[off..off + Total(segs)])
    requires Disjoint(segs)
    ensures forall k :: 0 <= k < Total(segs) ==> AddressOf(segs, k) < |host| && mb[off + k] == host[AddressOf(segs, k)]
  {
    hide Gather, Scatter, Total, InHost, AddressOf, Disjoint;
    GatherScatter(was, segs, mb[off..off + Total(segs)]);
    SameSize(was, host, segs);
    WrittenBytes(mb, off, host, segs);
  }

  // ----- dma_buf_read, dma_buf_write ---------------------------------------------------------------------

  /** One round of `dma_buf_write`. */
  method GatherSegment(buf: array<Byte>, host: array<Byte>, segs: seq<Segment>, i: nat, at: nat, ghost was: seq<Byte>)
    requires buf != host && InHost(host[..], segs) && i < |segs| && InHost(host[..], segs[..i])
    requires at == Total(segs[..i]) && at + segs[i].len <= buf.Length == |was|
    requires buf[..] == Gather(host[..], segs[..i]) + was[at..]
    modifies buf
    ensures InHost(host[..], segs[..i + 1]) && at + segs[i].len == Total(segs[..i + 1])
    ensures buf[..] == Gather(host[..], segs[..i + 1]) + was[at + segs[i].len..]
  {
    hide Gather, Total, InHost;
    SplitTotal(segs, i);
    SegInHost(host[..], segs, i);
    GatherOneMore(host[..], segs, i);
    CopyIn(buf, at, host, segs[i].base, segs[i].len);
  }

  /** `dma_buf_write`: host memory to buffer.  A list longer than the buffer aborts (ok is
      false), which cannot happen for a list that was made for the buffer. */
  method BufWrite(buf: array<Byte>, host: array<Byte>, segs: seq<Segment>) returns (ok: bool)
    requires buf != host && InHost(host[..], segs)
    modifies buf
    ensures ok <==> Total(segs) <= buf.Length
    ensures ok ==> buf[..] == Gather(host[..], segs) + old(buf[Total(segs)..])
  {
    hide Gather, Total, InHost;
    var i, dmalen := 0, 0;
    StartOfCopy(host[..], segs);
    ghost var was := buf[..];
    while i < |segs|
      invariant i <= |segs| && dmalen == Total(segs[..i]) <= buf.Length && InHost(host[..], segs[..i])
      invariant buf[..] == Gather(host[..], segs[..i]) + was[dmalen..]
    {
      var at := dmalen;
      dmalen := dmalen + segs[i].len;
      if dmalen > buf.Length {
        SplitTotal(segs, i);
        return false;
      }
      GatherSegment(buf, host, segs, i, at, was);
      i := i + 1;
    }
    assert segs[..i] == segs;
    ok := true;
  }

  lemma SegInHost(host: seq<Byte>, segs: seq<Segment>, i: nat)
    requires InHost(host, segs) && i < |segs|
    ensures segs[i].base + segs[i].len <= |host|
  {
  }
}
