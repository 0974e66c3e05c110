/** The packed records of a file listing: their encoding, the pools that hold them, and reading them back. */
module Listing {
  import opened Bytes
  import opened Sorting

  const DIR: nat := 0
  const FILE: nat := 1
  const FIFO: nat := 2
  const SOCKET: nat := 3
  const CHAR_DEV: nat := 4
  const BLOCK_DEV: nat := 5
  const SYMLINK: nat := 6
  const HARD_LINK: nat := 7

  const POOL_SIZE: nat := 1024

  /** What a line of the listing says. A file without a target has an empty one. */
  datatype Entry = Entry(kind: nat, uid: nat, gid: nat, mode: nat, name: seq<byte>, target: seq<byte>, devno: nat)

  /** What a reader of the listing gets. */
  datatype Record = Record(kind: nat, permissions: nat, uid: nat, gid: nat, name: seq<byte>, target: seq<byte>,
                           devno: nat)

  predicate IsLink(kind: nat) {
    kind == SYMLINK || kind == HARD_LINK
  }

  predicate IsDevice(kind: nat) {
    kind == CHAR_DEV || kind == BLOCK_DEV
  }

  /** The limits of the format: names of 1 to 287 bytes, link targets of 1 to 256, file targets of up to 255. */
  predicate Encodable(e: Entry) {
    && e.kind < 8 && e.mode < 0x1000 && e.uid < 0x1_0000_0000 && e.gid < 0x1_0000_0000 && e.devno < 0x1_0000_0000
    && 1 <= |e.name| <= 287
    && if IsLink(e.kind) then 1 <= |e.target| <= 256 else if e.kind == FILE then |e.target| <= 255 else e.target == []
  }

  /**
   * What the format keeps of an entry: a hard link has no owner, and of a symbolic link's mode only the upper bits
   * count.
   */
  function Kept(e: Entry): Record {
    Record(e.kind,
           if e.kind == HARD_LINK then 0x1FF else if e.kind == SYMLINK then e.mode / 0x200 * 0x200 + 0x1FF else e.mode,
           if e.kind == HARD_LINK then 0 else e.uid,
           if e.kind == HARD_LINK then 0 else e.gid,
           e.name, e.target, if IsDevice(e.kind) then e.devno else 0)
  }

  /** So all that matters is kept: the rest is what links have no use for, and device numbers of others. */
  lemma KeptExact(e: Entry)
    requires Encodable(e)
    ensures var r := Kept(e);
            && r.kind == e.kind && r.name == e.name && r.target == e.target
            && (e.kind != HARD_LINK ==> r.uid == e.uid && r.gid == e.gid)
            && (e.kind != HARD_LINK && e.kind != SYMLINK ==> r.permissions == e.mode)
            && (e.kind == SYMLINK ==> r.permissions / 0x200 == e.mode / 0x200 && r.permissions % 0x200 == 0x1FF)
            && (e.kind == HARD_LINK ==> r.permissions == 0x1FF && r.uid == 0 && r.gid == 0)
            && r.devno == if e.kind == CHAR_DEV || e.kind == BLOCK_DEV then e.devno else 0
  {
  }

  /* Numbers of one, two or four bytes, highest byte first. */

  /** How many bytes a number needs: 0 stands for half a byte, 3 for four bytes. */
  function LengthCode(v: nat): (l: nat)
    ensures l <= 3
  {
    if v <= 0x0F then 0 else if v <= 0xFF then 1 else if v <= 0xFFFF then 2 else 3
  }

  function StoreU32(v: nat, len: nat): (s: seq<byte>)
    ensures |s| == CodeSize(len)
  {
    (if len == 3 then [v / 0x100_0000 % 0x100, v / 0x1_0000 % 0x100] else []) +
    (if len == 3 || len == 2 then [v / 0x100 % 0x100] else []) +
    [v % 0x100]
  }

  function CodeSize(len: nat): nat {
    if len == 3 then 4 else if len == 2 then 2 else 1
  }

  method LoadU32(buf: array<byte>, at: nat, len: nat, ghost v: nat) returns (value: nat, size: nat)
    requires Holds(buf[..], at, StoreU32(v, len)) && v < 0x1_0000_0000 && LengthCode(v) <= len <= 3
    ensures value == v && size == CodeSize(len)
  {
    ghost var s := StoreU32(v, len);
    assert forall i | at <= i < at + |s| :: buf[i] == s[i - at] by {
      assert forall i | at <= i < at + |s| :: buf[i] == buf[..][at..at + |s|][i - at];
    }
    if len == 3 {
      assert v == v / 0x100_0000 % 0x100 * 0x100_0000 + v / 0x1_0000 % 0x100 * 0x1_0000 + v / 0x100 % 0x100 * 0x100
             + v % 0x100 by {
        FourBytes(v);
      }
      value := buf[at] as nat * 0x100_0000 + buf[at + 1] as nat * 0x1_0000 + buf[at + 2] as nat * 0x100
          + buf[at + 3] as nat;
      size := 4;
    } else if len == 2 {
      value := buf[at] as nat * 0x100 + buf[at + 1] as nat;
      size := 2;
    } else {
      value := buf[at];
      size := 1;
    }
  }

  lemma FourBytes(v: nat)
    requires v < 0x1_0000_0000
    ensures v == v / 0x100_0000 % 0x100 * 0x100_0000 + v / 0x1_0000 % 0x100 * 0x1_0000 + v / 0x100 % 0x100 * 0x100
            + v % 0x100
  {
    assert v / 0x100 / 0x100 == v / 0x1_0000 && v / 0x1_0000 / 0x100 == v / 0x100_0000;
  }

  /* The encoding, part by part. */

  function Header(e: Entry): (s: seq<byte>)
    requires Encodable(e)
    ensures |s| == 2
  {
    [e.kind + if |e.name| <= 31 then |e.name| * 8 else 0,
     LengthCode(e.uid) * 64 + LengthCode(e.gid) * 16 + e.mode / 0x100]
  }

  function ModePart(e: Entry): seq<byte> {
    if IsLink(e.kind) then [] else [e.mode % 0x100]
  }

  function OwnerPart(e: Entry): seq<byte>
    requires Encodable(e)
  {
    if e.kind == HARD_LINK then []
    else if LengthCode(e.uid) == 0 && LengthCode(e.gid) == 0 then [e.uid * 16 + e.gid]
    else StoreU32(e.uid, LengthCode(e.uid)) + StoreU32(e.gid, LengthCode(e.gid))
  }

  function LongName(e: Entry): seq<byte>
    requires Encodable(e)
  {
    if |e.name| > 31 then [|e.name| - 32] else []
  }

  function ExtraPart(e: Entry): seq<byte>
    requires Encodable(e)
  {
    if IsDevice(e.kind) then StoreU32(e.devno, 3)
    else if IsLink(e.kind) then [|e.target| - 1] + e.target
    else if e.kind == FILE then [|e.target|] + e.target
    else []
  }

  function Encode(e: Entry): seq<byte>
    requires Encodable(e)
  {
    Header(e) + (ModePart(e) + (OwnerPart(e) + (LongName(e) + (e.name + ExtraPart(e)))))
  }

  /** The size that the source works out before it encodes. */
  function GetEncodedSize(e: Entry): nat {
    2 + (if |e.name| > 31 then 1 else 0) + |e.name|
    + (if IsLink(e.kind) then 0 else 1)
    + (if e.kind == HARD_LINK then 0
       else if e.uid <= 0x0F && e.gid <= 0x0F then 1
       else (if e.uid <= 0xFF then 1 else if e.uid <= 0xFFFF then 2 else 4) +
            (if e.gid <= 0xFF then 1 else if e.gid <= 0xFFFF then 2 else 4))
    + (if IsDevice(e.kind) then 4 else if IsLink(e.kind) then 1 + |e.target|
       else if e.kind == FILE then |e.target| + 1 else 0)
  }

  /** The size is exact, and every record fits an empty pool. */
  lemma SizeExact(e: Entry)
    requires Encodable(e)
    ensures |Encode(e)| == GetEncodedSize(e) && 0 < GetEncodedSize(e) <= POOL_SIZE
  {
  }

  /** The bytes `s` are found at `at`. */
  ghost predicate Holds(b: seq<byte>, at: nat, s: seq<byte>) {
    at + |s| <= |b| && b[at..at + |s|] == s
  }

  lemma HoldsParts(b: seq<byte>, at: nat, p: seq<byte>, q: seq<byte>)
    ensures Holds(b, at, p + q) <==> Holds(b, at, p) && Holds(b, at + |p|, q)
  {
    if Holds(b, at, p + q) {
      assert b[at..at + |p|] == (p + q)[..|p|] && b[at + |p|..at + |p| + |q|] == (p + q)[|p|..];
    }
    if Holds(b, at, p) && Holds(b, at + |p|, q) {
      assert b[at..at + |p + q|] == b[at..at + |p|] + b[at + |p|..at + |p| + |q|];
    }
  }

  /* Writing. */

  /** Writes some bytes and moves on. */
  method Put(out: array<byte>, at: nat, s: seq<byte>, ghost done: seq<byte>, ghost start: nat) returns (next: nat)
    requires at == start + |done| && at + |s| <= out.Length && Holds(out[..], start, done)
    modifies out
    ensures next == at + |s| && Holds(out[..], start, done + s)
    ensures forall i | 0 <= i < out.Length && !(at <= i < next) :: out[i] == old(out[i])
  {
    forall i | 0 <= i < |s| {
      out[at + i] := s[i];
    }
    next := at + |s|;
    assert out[..][start..start + |done|] == old(out[..])[start..start + |done|];
    assert out[..][at..at + |s|] == s;
    HoldsParts(out[..], start, done, s);
  }

  method EncodeEntry(out: array<byte>, start: nat, e: Entry)
    requires Encodable(e) && start + GetEncodedSize(e) <= out.Length
    modifies out
    ensures Holds(out[..], start, Encode(e))
    ensures forall i | 0 <= i < out.Length && !(start <= i < start + GetEncodedSize(e)) :: out[i] == old(out[i])
  {
    hide Header, ModePart, OwnerPart, LongName, ExtraPart, Holds, Encode, GetEncodedSize, Encodable;
    EncodeParts(e);
    HoldsNothing(out[..], start);
    ghost var h, m, o, l, x := Header(e), ModePart(e), OwnerPart(e), LongName(e), ExtraPart(e);
    var at := Put(out, start, Header(e), [], start);
    at := Put(out, at, ModePart(e), [] + h, start);
    at := Put(out, at, OwnerPart(e), [] + h + m, start);
    at := Put(out, at, LongName(e), [] + h + m + o, start);
    at := Put(out, at, e.name, [] + h + m + o + l, start);
    at := Put(out, at, ExtraPart(e), [] + h + m + o + l + e.name, start);
  }

  lemma EncodeParts(e: Entry)
    requires Encodable(e)
    ensures [] + Header(e) + ModePart(e) + OwnerPart(e) + LongName(e) + e.name + ExtraPart(e) == Encode(e)
    ensures |Header(e)| + |ModePart(e)| + |OwnerPart(e)| + |LongName(e)| + |e.name| + |ExtraPart(e)| ==
            GetEncodedSize(e)
  {
    hide Header, ModePart, OwnerPart, LongName, ExtraPart, GetEncodedSize, Encodable;
    SizeExact(e);
    var h, m, o, l, x := Header(e), ModePart(e), OwnerPart(e), LongName(e), ExtraPart(e);
    assert [] + h == h;
    Assoc(h + m + o + l, e.name, x);
    Assoc(h + m + o, l, e.name + x);
    Assoc(h + m, o, l + (e.name + x));
    Assoc(h, m, o + (l + (e.name + x)));
  }

  lemma Assoc(a: seq<byte>, b: seq<byte>, c: seq<byte>)
    ensures a + b + c == a + (b + c)
  {
  }

  lemma HoldsNothing(b: seq<byte>, at: nat)
    ensures at <= |b| ==> Holds(b, at, [])
  {
  }

  /* Reading. */

  lemma PartsOf(b: seq<byte>, at: nat, e: Entry)
    requires Encodable(e) && Holds(b, at, Encode(e))
    ensures var a1 := at + 2;
            var a2 := a1 + |ModePart(e)|;
            var a3 := a2 + |OwnerPart(e)|;
            var a4 := a3 + |LongName(e)|;
            var a5 := a4 + |e.name|;
            && Holds(b, at, Header(e)) && Holds(b, a1, ModePart(e)) && Holds(b, a2, OwnerPart(e))
            && Holds(b, a3, LongName(e))
            && Holds(b, a4, e.name) && Holds(b, a5, ExtraPart(e)) && a5 + |ExtraPart(e)| == at + |Encode(e)|
  {
    hide Holds, ModePart, OwnerPart, LongName, ExtraPart, Header;
    var p5 := e.name + ExtraPart(e);
    var p4 := LongName(e) + p5;
    var p3 := OwnerPart(e) + p4;
    var p2 := ModePart(e) + p3;
    HoldsParts(b, at, Header(e), p2);
    HoldsParts(b, at + 2, ModePart(e), p3);
    HoldsParts(b, at + 2 + |ModePart(e)|, OwnerPart(e), p4);
    HoldsParts(b, at + 2 + |ModePart(e)| + |OwnerPart(e)|, LongName(e), p5);
    HoldsParts(b, at + 2 + |ModePart(e)| + |OwnerPart(e)| + |LongName(e)|, e.name, ExtraPart(e));
  }

  lemma ByteHeld(b: seq<byte>, at: nat, s: seq<byte>, i: nat)
    requires Holds(b, at, s) && i < |s|
    ensures at + i < |b| && b[at + i] == s[i]
  {
    assert b[at..at + |s|][i] == b[at + i];
  }

  lemma HeaderBits(e: Entry)
    requires Encodable(e)
    ensures var h := Header(e);
            && h[0] % 8 == e.kind && h[0] / 8 == (if |e.name| <= 31 then |e.name| else 0)
            && h[1] / 64 == LengthCode(e.uid) && h[1] / 16 % 4 == LengthCode(e.gid) && h[1] % 16 == e.mode / 0x100
            && h[1] % 16 / 2 == e.mode / 0x200
  {
    UpperBits(e.mode);
  }

  method DecodeHeader(buf: array<byte>, at: nat, ghost e: Entry) returns (kind: nat, namelen: nat, ul: nat, gl: nat)
    requires Encodable(e) && Holds(buf[..], at, Header(e))
    ensures kind == e.kind && namelen == (if |e.name| <= 31 then |e.name| else 0)
    ensures ul == LengthCode(e.uid) && gl == LengthCode(e.gid)
  {
    hide Holds, Header, LengthCode;
    ByteHeld(buf[..], at, Header(e), 0);
    ByteHeld(buf[..], at, Header(e), 1);
    HeaderBits(e);
    kind, namelen := buf[at] % 8, buf[at] / 8 % 32;
    ul, gl := buf[at + 1] / 64 % 4, buf[at + 1] / 16 % 4;
  }

  method DecodeMode(buf: array<byte>, at: nat, kind: nat, ghost e: Entry) returns (permissions: nat, next: nat)
    requires Encodable(e) && Holds(buf[..], at, Header(e)) && Holds(buf[..], at + 2, ModePart(e)) && kind == e.kind
    ensures permissions == Kept(e).permissions && next == at + 2 + |ModePart(e)|
  {
    hide Holds, Header, LengthCode;
    ByteHeld(buf[..], at, Header(e), 1);
    HeaderBits(e);
    if kind == HARD_LINK {
      permissions, next := 0x1FF, at + 2;
    } else if kind == SYMLINK {
      // the lowest of the four bits is masked out, the other three are the bits above the permissions
      permissions, next := 0x1FF + buf[at + 1] as nat % 16 / 2 * 0x200, at + 2;
    } else {
      ByteHeld(buf[..], at + 2, ModePart(e), 0);
      permissions, next := buf[at + 1] as nat % 16 * 0x100 + buf[at + 2] as nat, at + 3;
    }
  }

  lemma UpperBits(mode: nat)
    requires mode < 0x1000
    ensures mode / 0x100 / 2 == mode / 0x200
  {
  }

  method DecodeOwner(buf: array<byte>, at: nat, kind: nat, ul: nat, gl: nat, ghost e: Entry)
    returns (uid: nat, gid: nat, next: nat)
    requires Encodable(e) && Holds(buf[..], at, OwnerPart(e)) && kind == e.kind
    requires ul == LengthCode(e.uid) && gl == LengthCode(e.gid)
    ensures uid == Kept(e).uid && gid == Kept(e).gid && next == at + |OwnerPart(e)|
  {
    hide Holds, StoreU32;
    uid, gid, next := 0, 0, at;
    if kind != HARD_LINK {
      if ul == 0 && gl == 0 {
        ByteHeld(buf[..], at, OwnerPart(e), 0);
        uid, gid, next := buf[at] / 16 % 16, buf[at] % 16, at + 1;
      } else {
        var size;
        HoldsParts(buf[..], at, StoreU32(e.uid, ul), StoreU32(e.gid, gl));
        uid, size := LoadU32(buf, next, ul, e.uid);
        next := next + size;
        gid, size := LoadU32(buf, next, gl, e.gid);
        next := next + size;
      }
    }
  }

  method DecodeName(buf: array<byte>, at: nat, short: nat, ghost e: Entry) returns (name: seq<byte>, next: nat)
    requires Encodable(e) && Holds(buf[..], at, LongName(e)) && Holds(buf[..], at + |LongName(e)|, e.name)
    requires short == if |e.name| <= 31 then |e.name| else 0
    ensures name == e.name && next == at + |LongName(e)| + |e.name|
  {
    var namelen: nat := short;
    next := at;
    if namelen == 0 {
      ByteHeld(buf[..], at, LongName(e), 0);
      namelen, next := 32 + buf[at] as nat, at + 1;
    }
    name := buf[next..next + namelen];
    next := next + namelen;
  }

  method DecodeExtra(buf: array<byte>, at: nat, kind: nat, ghost e: Entry)
    returns (devno: nat, target: seq<byte>, next: nat)
    requires Encodable(e) && Holds(buf[..], at, ExtraPart(e)) && kind == e.kind
    ensures devno == Kept(e).devno && target == e.target && next == at + |ExtraPart(e)|
  {
    hide StoreU32;
    devno, target, next := 0, [], at;
    if IsDevice(kind) {
      var size;
      devno, size := LoadU32(buf, next, 3, e.devno);
      next := next + size;
    } else if IsLink(kind) || kind == FILE {
      ByteHeld(buf[..], at, ExtraPart(e), 0);
      var targetlen := buf[at] as nat + if IsLink(kind) then 1 else 0;
      HoldsParts(buf[..], at, [buf[at]], e.target);
      next := next + 1;
      target := buf[next..next + targetlen];
      next := next + targetlen;
    }
  }

  /** Reading what was written gives back all that the format keeps, and ends where the record ends. */
  method DecodeRecord(buf: array<byte>, at: nat, ghost e: Entry) returns (r: Record, next: nat)
    requires Encodable(e) && Holds(buf[..], at, Encode(e))
    ensures r == Kept(e) && next == at + |Encode(e)|
  {
    hide Holds, Header, ModePart, OwnerPart, LongName, ExtraPart, Encode, Encodable;
    PartsOf(buf[..], at, e);
    var kind, namelen, ul, gl := DecodeHeader(buf, at, e);
    var permissions, uid, gid, devno, name, target;
    permissions, next := DecodeMode(buf, at, kind, e);
    uid, gid, next := DecodeOwner(buf, next, kind, ul, gl, e);
    name, next := DecodeName(buf, next, namelen, e);
    devno, target, next := DecodeExtra(buf, next, kind, e);
    r := Record(kind, permissions, uid, gid, name, target, devno);
  }

  /* The pools. */

  class Pool {
    const buffer: array<byte>
    var used: nat

    constructor ()
      ensures fresh(buffer) && buffer.Length == POOL_SIZE && used == 0
    {
      buffer := new byte[POOL_SIZE](_ => 0);
      used := 0;
    }
  }

  ghost predicate AllEncodable(es: seq<Entry>) {
    forall i | 0 <= i < |es| :: Encodable(es[i])
  }

  ghost function EncodeAll(es: seq<Entry>): seq<byte>
    requires AllEncodable(es)
  {
    if es == [] then [] else Encode(es[0]) + EncodeAll(es[1..])
  }

  lemma {:induction false} EncodeAllConcat(a: seq<Entry>, b: seq<Entry>)
    requires AllEncodable(a) && AllEncodable(b)
    ensures AllEncodable(a + b) && EncodeAll(a + b) == EncodeAll(a) + EncodeAll(b)
  {
    hide Encode, Encodable;
    if a == [] {
      assert a + b == b;
    } else {
      assert (a + b)[1..] == a[1..] + b && (a + b)[0] == a[0];
      EncodeAllConcat(a[1..], b);
    }
  }

  lemma EncodeOne(e: Entry)
    requires Encodable(e)
    ensures AllEncodable([e]) && EncodeAll([e]) == Encode(e)
  {
    hide Encode, Encodable;
    assert [e][1..] == [];
    assert EncodeAll([e]) == Encode(e) + EncodeAll([]);
  }

  /** The entries of all pools, pool by pool. */
  ghost function Flat(groups: seq<seq<Entry>>): seq<Entry> {
    if groups == [] then [] else groups[0] + Flat(groups[1..])
  }

  /** The pool holds just these records. */
  ghost predicate PoolHolds(p: Pool, es: seq<Entry>)
    reads p, p.buffer
  {
    && p.buffer.Length == POOL_SIZE && p.used <= POOL_SIZE
    && AllEncodable(es) && p.buffer[..p.used] == EncodeAll(es)
  }

  class Listing {
    var offset: nat
    var pools: seq<Pool>
    ghost var groups: seq<seq<Entry>>

    constructor ()
      ensures Valid() && groups == [] && offset == 0 && pools == []
    {
      offset, pools, groups := 0, [], [];
    }

    ghost predicate Valid()
      reads this, pools, set p | p in pools :: p.buffer
    {
      && |groups| == |pools|
      && (forall i, j | 0 <= i < |pools| && 0 <= j < |pools| && i != j ::
           pools[i] != pools[j] && pools[i].buffer != pools[j].buffer)
      && forall i | 0 <= i < |pools| :: PoolHolds(pools[i], groups[i])
    }

    /** The first pool with enough room, or a new one behind all others. */
    method GetPool(size: nat) returns (k: nat)
      requires Valid() && size <= POOL_SIZE
      modifies this
      ensures Valid() && k < |pools| && POOL_SIZE - pools[k].used >= size && offset == old(offset)
      ensures forall j | 0 <= j < k :: POOL_SIZE - pools[j].used < size
      ensures Flat(groups) == old(Flat(groups))
      ensures (pools == old(pools) && groups == old(groups)) ||
              (|pools| == |old(pools)| + 1 && fresh(pools[|old(pools)|]) && fresh(pools[|old(pools)|].buffer) &&
               pools[..|old(pools)|] == old(pools))
    {
      hide EncodeAll, Encodable;
      k := 0;
      while k < |pools|
        invariant 0 <= k <= |pools| && forall j | 0 <= j < k :: POOL_SIZE - pools[j].used < size
      {
        if POOL_SIZE - pools[k].used >= size {
          return;
        }
        k := k + 1;
      }
      var p := new Pool();
      EncodeNone();
      FlatNew(groups);
      pools, groups := pools + [p], groups + [[]];
    }

    /** Adds a record to the pool that has room for it. */
    method AddEntry(e: Entry)
      requires Valid() && Encodable(e)
      modifies this, pools, set p | p in pools :: p.buffer
      ensures Valid() && offset == old(offset)
      ensures multiset(Flat(groups)) == old(multiset(Flat(groups))) + multiset{e}
    {
      hide EncodeAll, Encodable, Encode, GetEncodedSize, AllEncodable, Flat, Holds;
      SizeExact(e);
      var len := GetEncodedSize(e);
      var k := GetPool(len);
      var p := pools[k];
      ghost var before := p.buffer[..p.used];
      EncodeEntry(p.buffer, p.used, e);
      RecordAdded(p.buffer[..], p.used, before, groups[k], e);
      FlatPut(groups, k, e);
      groups := groups[k := groups[k] + [e]];
      p.used := p.used + len;
    }

    /** The reader has been through the first `n` records. */
    ghost predicate ReadUpTo(n: nat)
      reads this
    {
      ReadAt(Flat(groups), n, offset)
    }

    /** Gives the next record, or reports the end. */
    method GetNextRecord(ghost n: nat) returns (done: bool, r: Record)
      requires Valid() && ReadUpTo(n)
      modifies this`offset
      ensures Valid() && groups == old(groups) && (done <==> n == |Flat(groups)|)
      ensures if done then ReadUpTo(n) else r == Kept(Flat(groups)[n]) && ReadUpTo(n + 1)
    {
      hide EncodeAll, Encodable, Encode, Flat, Holds, Kept;
      var off: nat, k := offset, 0;
      ghost var t: nat := n;
      assert groups[0..] == groups;
      while k < |pools|
        invariant offset == old(offset) && 0 <= k <= |pools|
        invariant ReadAt(Flat(groups[k..]), t, off) && Flat(groups)[n..] == Flat(groups[k..])[t..]
      {
        assert PoolHolds(pools[k], groups[k]);
        assert groups[k..][1..] == groups[k + 1..] && groups[k..][0] == groups[k];
        SkipPool(groups[k..], t, off, pools[k].used);
        if off < pools[k].used {
          break;
        }
        off, k, t := off - pools[k].used, k + 1, t - |groups[k]|;
      }
      r := Record(0, 0, 0, 0, [], [], 0);
      if k == |pools| {
        assert groups[k..] == [];
        EncodeNone();
        AtEnd(Flat(groups), n, offset, t, off);
        done := true;
        return;
      }
      done := false;
      ghost var e := groups[k][t];
      HoldsInPool(pools[k].buffer[..], pools[k].used, off, Encode(e));
      var next;
      r, next := DecodeRecord(pools[k].buffer, off, e);
      assert |Flat(groups)[n..]| == |Flat(groups[k..])[t..]|;
      ReadOn(Flat(groups), n, offset);
      assert Flat(groups)[n] == Flat(groups)[n..][0] == Flat(groups[k..])[t..][0] == e;
      offset := offset + (next - off);
    }

    /** The loop that takes everything out of a listing: each record comes once, in the order of the pools. */
    method Drain() returns (rs: seq<Record>)
      requires Valid() && offset == 0
      modifies this`offset
      ensures Valid() && groups == old(groups) && rs == KeptAll(Flat(groups))
    {
      hide EncodeAll, Encodable, Encode, Flat, PoolHolds, Kept;
      FlatEncodable(this);
      EncodeNone();
      assert Flat(groups)[..0] == [];
      rs := [];
      var done := false;
      while !done
        invariant Valid() && groups == old(groups) && |rs| <= |Flat(groups)| && ReadUpTo(|rs|)
        invariant forall i | 0 <= i < |rs| :: rs[i] == Kept(Flat(groups)[i])
        invariant done ==> |rs| == |Flat(groups)|
        decreases |Flat(groups)| - |rs|, !done
      {
        var r;
        done, r := GetNextRecord(|rs|);
        if !done {
          rs := rs + [r];
        }
      }
    }
  }

  /** What reading gives back of all entries. */
  ghost function KeptAll(es: seq<Entry>): (rs: seq<Record>)
    ensures |rs| == |es| && forall i | 0 <= i < |es| :: rs[i] == Kept(es[i])
  {
    seq(|es|, i requires 0 <= i < |es| => Kept(es[i]))
  }

  lemma FlatEncodable(l: Listing)
    requires l.Valid()
    ensures AllEncodable(Flat(l.groups))
  {
    hide EncodeAll, Encodable;
    forall i | 0 <= i < |l.groups| ensures AllEncodable(l.groups[i]) {
      assert PoolHolds(l.pools[i], l.groups[i]);
    }
    GroupsEncodable(l.groups);
  }

  lemma {:induction false} GroupsEncodable(groups: seq<seq<Entry>>)
    requires forall i | 0 <= i < |groups| :: AllEncodable(groups[i])
    ensures AllEncodable(Flat(groups))
  {
    hide Encodable;
    if groups != [] {
      GroupsEncodable(groups[1..]);
    }
  }

  /** Entries in another order are read as the same records in another order. */
  lemma {:induction false} KeptPermutes(a: seq<Entry>, b: seq<Entry>)
    requires multiset(a) == multiset(b)
    ensures multiset(KeptAll(a)) == multiset(KeptAll(b))
  {
    hide *;
    if a == [] {
      assert |b| == |multiset(b)| == |multiset(a)| == 0;
    } else {
      var j := PermutedHead(a, b);
      KeptPermutes(a[1..], b[..j] + b[j + 1..]);
      KeptTakenOut(a, 0);
      KeptTakenOut(b, j);
      assert a[..0] + a[1..] == a[1..];
    }
  }

  lemma TakenOut<T>(s: seq<T>, j: nat)
    requires j < |s|
    ensures multiset(s) == multiset{s[j]} + multiset(s[..j] + s[j + 1..]) && s[j] in multiset(s)
  {
    assert s == s[..j] + ([s[j]] + s[j + 1..]);
  }

  lemma KeptTakenOut(s: seq<Entry>, j: nat)
    requires j < |s|
    ensures multiset(KeptAll(s)) == multiset{Kept(s[j])} + multiset(KeptAll(s[..j] + s[j + 1..]))
  {
    hide Kept;
    var r := KeptAll(s);
    TakenOut(r, j);
    assert KeptAll(s[..j] + s[j + 1..]) == r[..j] + r[j + 1..];
  }

  /** If the pools hold one more entry, one more record is drained from them. */
  lemma KeptOneMore(before: seq<Entry>, after: seq<Entry>, e: Entry)
    requires multiset(after) == multiset(before) + multiset{e}
    ensures multiset(KeptAll(after)) == multiset(KeptAll(before)) + multiset{Kept(e)}
  {
    hide Kept;
    KeptPermutes(after, before + [e]);
    KeptTakenOut(before + [e], |before|);
    assert (before + [e])[..|before|] + (before + [e])[|before| + 1..] == before;
  }

  /** The byte at `off` is where record `t` starts. */
  ghost predicate ReadAt(es: seq<Entry>, t: nat, off: nat) {
    t <= |es| && AllEncodable(es) && off == |EncodeAll(es[..t])|
  }

  lemma EncodeNone()
    ensures EncodeAll([]) == [] && Flat([]) == []
  {
  }

  lemma FlatNew(groups: seq<seq<Entry>>)
    ensures Flat(groups + [[]]) == Flat(groups)
  {
    var n: seq<seq<Entry>> := [[]];
    FlatConcat(groups, n);
    assert n[1..] == [];
  }

  lemma {:induction false} FlatConcat(a: seq<seq<Entry>>, b: seq<seq<Entry>>)
    ensures Flat(a + b) == Flat(a) + Flat(b)
  {
    if a == [] {
      assert a + b == b;
    } else {
      assert (a + b)[1..] == a[1..] + b && (a + b)[0] == a[0];
      FlatConcat(a[1..], b);
    }
  }

  lemma RecordAdded(b: seq<byte>, used: nat, before: seq<byte>, es: seq<Entry>, e: Entry)
    requires Encodable(e) && AllEncodable(es) && before == EncodeAll(es) && |before| == used <= |b|
             && b[..used] == before
    requires Holds(b, used, Encode(e))
    ensures AllEncodable(es + [e]) && used + |Encode(e)| <= |b| && b[..used + |Encode(e)|] == EncodeAll(es + [e])
  {
    hide EncodeAll, Encode, Encodable;
    EncodeOne(e);
    EncodeAllConcat(es, [e]);
    assert b[..used + |Encode(e)|] == b[..used] + b[used..used + |Encode(e)|];
  }

  lemma FlatPut(groups: seq<seq<Entry>>, k: nat, e: Entry)
    requires k < |groups|
    ensures multiset(Flat(groups[k := groups[k] + [e]])) == multiset(Flat(groups)) + multiset{e}
  {
    var a, b := groups[..k], groups[k + 1..];
    assert groups == a + ([groups[k]] + b) && groups[k := groups[k] + [e]] == a + ([groups[k] + [e]] + b);
    FlatConcat(a, [groups[k]] + b);
    FlatConcat(a, [groups[k] + [e]] + b);
    assert ([groups[k]] + b)[1..] == b && ([groups[k] + [e]] + b)[1..] == b;
  }

  lemma EncodeSome(es: seq<Entry>, t: nat)
    requires AllEncodable(es) && t < |es|
    ensures AllEncodable(es[..t]) && AllEncodable(es[t + 1..]) && Encodable(es[t])
    ensures EncodeAll(es) == EncodeAll(es[..t]) + (Encode(es[t]) + EncodeAll(es[t + 1..]))
    ensures |Encode(es[t])| > 0
  {
    SizeExact(es[t]);
    hide EncodeAll, Encode, Encodable;
    EncodeOne(es[t]);
    assert es == es[..t] + ([es[t]] + es[t + 1..]);
    EncodeAllConcat([es[t]], es[t + 1..]);
    EncodeAllConcat(es[..t], [es[t]] + es[t + 1..]);
  }

  /** Whether the next record is in the first pool, and where, or how much is left to skip behind it. */
  lemma SkipPool(gs: seq<seq<Entry>>, t: nat, off: nat, used: nat)
    requires gs != [] && ReadAt(Flat(gs), t, off) && AllEncodable(gs[0]) && used == |EncodeAll(gs[0])|
    ensures if off < used
            then && t < |gs[0]| && t < |Flat(gs)| && Flat(gs)[t] == gs[0][t]
                 && Encodable(gs[0][t]) && Holds(EncodeAll(gs[0]), off, Encode(gs[0][t]))
            else && t >= |gs[0]| && ReadAt(Flat(gs[1..]), t - |gs[0]|, off - used)
                 && Flat(gs)[t..] == Flat(gs[1..])[t - |gs[0]|..]
  {
    hide EncodeAll, Encode, Encodable;
    var g, rest := gs[0], Flat(gs[1..]);
    assert Flat(gs) == g + rest;
    forall i | 0 <= i < |rest| ensures Encodable(rest[i]) {
      assert (g + rest)[|g| + i] == rest[i];
    }
    if t < |g| {
      assert Flat(gs)[..t] == g[..t];
      EncodeSome(g, t);
      var a, b, c := EncodeAll(g[..t]), Encode(g[t]), EncodeAll(g[t + 1..]);
      assert (a + (b + c))[|a|..|a| + |b|] == b;
    } else {
      assert Flat(gs)[..t] == g + rest[..t - |g|];
      EncodeAllConcat(g, rest[..t - |g|]);
    }
  }

  lemma HoldsInPool(b: seq<byte>, used: nat, at: nat, s: seq<byte>)
    requires used <= |b| && Holds(b[..used], at, s)
    ensures Holds(b, at, s)
  {
    assert b[..used][at..at + |s|] == b[at..at + |s|];
  }

  lemma AtEnd(es: seq<Entry>, n: nat, off: nat, t: nat, left: nat)
    requires ReadAt(es, n, off) && ReadAt([], t, left) && es[n..] == [][t..]
    ensures n == |es|
  {
  }

  lemma ReadOn(es: seq<Entry>, n: nat, off: nat)
    requires n < |es| && ReadAt(es, n, off)
    ensures Encodable(es[n]) && ReadAt(es, n + 1, off + |Encode(es[n])|)
  {
    hide EncodeAll, Encode, Encodable;
    assert es[..n + 1] == es[..n] + [es[n]];
    EncodeOne(es[n]);
    EncodeAllConcat(es[..n], [es[n]]);
  }
}
