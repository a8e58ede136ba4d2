/** The growable byte buffers of buf.c: xmlBuf, with a gap in front left by removed bytes, and the
    older xmlBuffer. */
module ByteBuffer {
  import opened Bytes

  const SIZE_MAX: nat := 0xFFFF_FFFF_FFFF_FFFF
  const INT_MAX: nat := 0x7FFF_FFFF

  // --- Memory -----------------------------------------------------------------------------------

  /** The memory after `bytes` were written at `at`. */
  ghost function Written(m: seq<byte>, at: nat, bytes: seq<byte>): seq<byte>
    requires at + |bytes| <= |m|
  {
    m[..at] + bytes + m[at + |bytes|..]
  }

  /** memmove or memcpy */
  method Put(mem: array<byte>, at: nat, bytes: seq<byte>)
    requires at + |bytes| <= mem.Length
    modifies mem
    ensures mem[..] == Written(old(mem[..]), at, bytes)
  {
    forall i | 0 <= i < |bytes| {
      mem[at + i] := bytes[i];
    }
  }

  lemma WrittenAt(m: seq<byte>, at: nat, bytes: seq<byte>, lo: nat, hi: nat)
    requires at + |bytes| <= |m| && lo <= hi <= |m|
    ensures |Written(m, at, bytes)| == |m|
    ensures hi <= at || at + |bytes| <= lo ==> Written(m, at, bytes)[lo..hi] == m[lo..hi]
    ensures lo == at && hi == at + |bytes| ==> Written(m, at, bytes)[lo..hi] == bytes
  {
  }

  // --- xmlBuf -------------------------------------------------------------------------------------

  class Buf {
    /** the allocation; the content begins at `start` */
    var mem: array<byte>
    var start: nat
    var use: nat
    /** bytes from the start of the content on, without the terminator */
    var size: nat
    const maxSize: nat
    var overflow: bool
    const isStatic: bool
    /** content bytes that growing has copied so far */
    ghost var moved: nat

    ghost predicate Valid()
      reads this, mem
    {
      Sized() && mem[start + use] == 0
    }

    /** Everything but the terminator, over which a caller may have written. */
    ghost predicate Sized()
      reads this
    {
      && mem.Length == start + size + 1
      && use <= size
      && start + size <= maxSize == SIZE_MAX - 1
    }

    ghost function Contents(): (s: seq<byte>)
      requires Sized()
      reads this, mem
    {
      mem[start..start + use]
    }

    /** What growing has cost so far is covered, as long as nothing was removed. */
    ghost predicate Thrifty()
      reads this
    {
      start == 0 && Covered(moved, use, size)
    }

    ghost predicate Covered(cost: nat, used: nat, capacity: nat) {
      cost <= 2 * used && (cost <= capacity || capacity == maxSize)
    }

    /** xmlBufCreate */
    constructor (size: nat)
      requires size < SIZE_MAX
      ensures Valid() && fresh(mem) && Contents() == [] && this.size == size
      ensures !isStatic && !overflow && maxSize == SIZE_MAX - 1 && moved == 0 && start == 0
    {
      mem := new byte[size + 1];
      start, use, this.size, maxSize := 0, 0, size, SIZE_MAX - 1;
      overflow, isStatic, moved := false, false, 0;
      new;
      mem[0] := 0;
    }

    /** xmlBufEmpty: the gap becomes capacity again. */
    method Empty()
      requires Valid()
      modifies this, mem
      ensures Valid() && mem == old(mem) && overflow == old(overflow) && moved == old(moved)
      ensures Contents() == if overflow || isStatic then old(Contents()) else []
      ensures !overflow && !isStatic ==> start == 0 && size == old(start) + old(size)
    {
      if overflow || isStatic {
        return;
      }
      use := 0;
      size := size + start;
      start := 0;
      mem[0] := 0;
    }

    /** xmlBufShrink */
    method Shrink(len: nat) returns (removed: nat)
      requires Valid()
      modifies this
      ensures Valid() && mem == old(mem) && overflow == old(overflow) && moved == old(moved)
      ensures removed == if overflow || len > old(use) then 0 else len
      ensures Contents() == old(Contents())[removed..]
      ensures size - use == old(size - use)
    {
      if overflow || len == 0 || len > use {
        return 0;
      }
      use := use - len;
      start := start + len;
      size := size - len;
      removed := len;
    }

    /** The contents moved to the front of the allocation (buf.c:276-286). */
    method MoveToFront()
      requires Valid()
      modifies this, mem
      ensures Valid() && mem == old(mem) && Contents() == old(Contents()) && use == old(use) &&
              overflow == old(overflow)
      ensures start == 0 && size == old(start) + old(size) && moved == old(moved) + use
    {
      ghost var before, kept := mem[..], mem[start..start + use + 1];
      Put(mem, 0, mem[start..start + use + 1]);
      WrittenAt(before, 0, kept, 0, use + 1);
      assert mem[..use + 1] == mem[..][..use + 1] == kept;
      assert kept[use] == 0 && kept[..use] == before[start..start + use];
      size := size + start;
      start := 0;
      moved := moved + use;
    }

    /** The contents moved to a new allocation (buf.c:304-323). */
    method Reallocate(newSize: nat)
      requires Valid() && use <= newSize <= maxSize
      modifies this
      ensures Valid() && fresh(mem) && Contents() == old(Contents()) && use == old(use) && overflow == old(overflow)
      ensures start == 0 && size == newSize && moved == old(moved) + use
    {
      ghost var kept := mem[start..start + use + 1];
      var newbuf := new byte[newSize + 1];
      ghost var before := newbuf[..];
      Put(newbuf, 0, mem[start..start + use + 1]);
      WrittenAt(before, 0, kept, 0, use + 1);
      assert newbuf[..use + 1] == newbuf[..][..use + 1] == kept;
      assert kept[use] == 0 && kept[..use] == mem[start..start + use];
      mem, start, size := newbuf, 0, newSize;
      moved := moved + use;
    }

    /** xmlBufGrowInternal: succeeds exactly if the maximum allows it, and then there is room for
        `len` bytes. No size computed on the way wraps around. */
    method GrowInternal(len: nat) returns (ok: bool)
      requires Valid() && !overflow && len > size - use
      modifies this, mem
      ensures Valid() && (mem == old(mem) || fresh(mem)) && Contents() == old(Contents()) && use == old(use)
      ensures ok <==> use + len <= maxSize
      ensures ok ==> size - use >= len && start == 0
      ensures overflow == !ok
      ensures !ok ==> mem == old(mem) && start == old(start) && size == old(size) && moved == old(moved)
      ensures ok && old(start) == 0 ==> moved == old(moved) + use && GrownEnough(old(size), size, use, len)
    {
      if len <= start + size - use {
        MoveToFront();
        return true;
      }
      if len > maxSize - use {
        overflow := true;
        return false;
      }
      var newSize: nat;
      if size > len {
        newSize := if size <= maxSize / 2 then size * 2 else maxSize;
      } else {
        newSize := use + len;
        if newSize <= maxSize - 100 {
          newSize := newSize + 100;
        }
      }
      Reallocate(newSize);
      ok := true;
    }

    ghost predicate GrownEnough(before: nat, after: nat, used: nat, len: nat) {
      after >= 2 * before || after == maxSize || (before <= len && after >= used + len)
    }

    /** xmlBufGrow */
    method Grow(len: nat) returns (ok: bool)
      requires Valid()
      modifies this, mem
      ensures Valid() && (mem == old(mem) || fresh(mem)) && Contents() == old(Contents()) && use == old(use)
      ensures ok <==> !old(overflow) && !isStatic && use + len <= maxSize
      ensures ok ==> size - use >= len
      ensures overflow == (old(overflow) || (!isStatic && use + len > maxSize))
    {
      if overflow || isStatic {
        return false;
      }
      if len <= size - use {
        return true;
      }
      ok := GrowInternal(len);
    }

    /** xmlBufUse */
    method Use() returns (n: nat)
      ensures n == if overflow then 0 else use
    {
      n := if overflow then 0 else use;
    }

    /** xmlBufAvail */
    method Avail() returns (n: nat)
      requires Sized()
      ensures n == if overflow then 0 else size - use
    {
      n := if overflow then 0 else size - use;
    }

    /** The bytes that a caller has written behind the content, and that AddLen makes part of it. */
    ghost function Behind(len: nat): seq<byte>
      requires Sized() && len <= size - use
      reads this, mem
    {
      mem[start + use..start + use + len]
    }

    /** xmlBufAddLen */
    method AddLen(len: nat) returns (ok: bool)
      requires Sized()
      modifies this`use, mem
      ensures Sized() && (ok || old(Valid()) ==> Valid())
      ensures ok <==> !overflow && !isStatic && len <= old(size - use)
      ensures use == old(use) + if ok then len else 0
      ensures if ok then Contents() == old(Contents()) + old(Behind(len)) else Contents() == old(Contents())
    {
      if overflow || isStatic || len > size - use {
        return false;
      }
      use := use + len;
      mem[start + use] := 0;
      assert Contents() == old(mem[start..start + use]) + old(mem[start + use..start + use + len]);
      ok := true;
    }

    /** xmlBufAdd: appends, unless the buffer has overflowed, does now, or is static. */
    method Add(str: seq<byte>) returns (ok: bool)
      requires Valid()
      modifies this, mem
      ensures Valid() && (mem == old(mem) || fresh(mem))
      ensures ok <==> !old(overflow) && !isStatic && (str == [] || old(use) + |str| <= maxSize)
      ensures Contents() == if ok then old(Contents()) + str else old(Contents())
      ensures overflow == (old(overflow) || (!isStatic && str != [] && old(use) + |str| > maxSize))
      ensures old(Thrifty()) ==> Thrifty()
    {
      if overflow || isStatic {
        return false;
      }
      if |str| == 0 {
        return true;
      }
      hide Covered, GrownEnough;
      MoreIsCovered(moved, use, |str|, size);
      ok := true;
      if |str| > size - use {
        ok := GrowInternal(|str|);
        if !ok {
          return;
        }
        if old(start) == 0 {
          StillThrifty(old(moved), old(size), size, use, |str|);
        }
      }
      AppendHere(str);
    }

    /** The copy and the new terminator (buf.c:472-474). */
    method AppendHere(str: seq<byte>)
      requires Valid() && |str| <= size - use
      modifies this`use, mem
      ensures Valid() && use == old(use) + |str|
      ensures Contents() == old(Contents()) + str
    {
      ghost var before, at := mem[..], start + use;
      Put(mem, start + use, str);
      WrittenAt(before, at, str, at, at + |str|);
      WrittenAt(before, at, str, start, at);
      assert mem[start..at] == mem[..][start..at] == before[start..at];
      assert mem[at..at + |str|] == mem[..][at..at + |str|] == str;
      use := use + |str|;
      mem[start + use] := 0;
      assert mem[start..start + use] == before[start..at] + str;
    }

    /** Growing pays: the buffer is at least doubled, or what is appended is as long as it. */
    lemma StillThrifty(before: nat, size0: nat, size1: nat, used: nat, len: nat)
      requires used <= size0 < used + len <= maxSize && GrownEnough(size0, size1, used, len)
      ensures Covered(before, used, size0) ==> Covered(before + used, used + len, size1)
    {
    }

    lemma MoreIsCovered(cost: nat, used: nat, len: nat, capacity: nat)
      ensures Covered(cost, used, capacity) ==> Covered(cost, used + len, capacity)
    {
    }
  }

  // --- Runs of operations -----------------------------------------------------------------------

  datatype Op = Append(bytes: seq<byte>) | Remove(count: nat) | Reserve(count: nat) | Clear

  /** What a buffer stands for: a byte sequence, and whether it has overflowed. */
  datatype Abstract = Abstract(bytes: seq<byte>, overflow: bool)

  ghost function Step(st: Abstract, op: Op): Abstract {
    if st.overflow then st
    else match op
      case Append(b) => if b != [] && |st.bytes| + |b| >= 0xFFFF_FFFF_FFFF_FFFF then st.(overflow := true)
        else st.(bytes := st.bytes + b)
      case Remove(n) => if n > |st.bytes| then st else st.(bytes := st.bytes[n..])
      case Reserve(n) => if |st.bytes| + n >= 0xFFFF_FFFF_FFFF_FFFF then st.(overflow := true) else st
      case Clear => st.(bytes := [])
  }

  ghost function Steps(st: Abstract, ops: seq<Op>): Abstract
    decreases |ops|
  {
    if ops == [] then st else Steps(Step(st, ops[0]), ops[1..])
  }

  method Perform(buf: Buf, op: Op)
    requires buf.Valid() && !buf.isStatic
    modifies buf, buf.mem
    ensures buf.Valid() && (buf.mem == old(buf.mem) || fresh(buf.mem))
    ensures Abstract(buf.Contents(), buf.overflow) == Step(old(Abstract(buf.Contents(), buf.overflow)), op)
  {
    match op {
      case Append(b) => var _ := buf.Add(b);
      case Remove(n) => var _ := buf.Shrink(n);
      case Reserve(n) => var _ := buf.Grow(n);
      case Clear => buf.Empty();
    }
  }

  /** Any interleaving of the operations refines the plain byte sequence. */
  method PerformAll(buf: Buf, ops: seq<Op>)
    requires buf.Valid() && !buf.isStatic
    modifies buf, buf.mem
    ensures buf.Valid()
    ensures Abstract(buf.Contents(), buf.overflow) == Steps(old(Abstract(buf.Contents(), buf.overflow)), ops)
  {
    hide Step;
    ghost var goal := Steps(Abstract(buf.Contents(), buf.overflow), ops);
    var i := 0;
    while i < |ops|
      invariant 0 <= i <= |ops| && buf.Valid() && (buf.mem == old(buf.mem) || fresh(buf.mem))
      invariant Steps(Abstract(buf.Contents(), buf.overflow), ops[i..]) == goal
    {
      Perform(buf, ops[i]);
      assert ops[i..][1..] == ops[i + 1..];
      i := i + 1;
    }
  }

  /** A run of appends to a new buffer copies at most three times the bytes appended: each of
      them once, and at most twice as many when growing. */
  method AppendAll(size: nat, chunks: seq<seq<byte>>) returns (buf: Buf)
    requires size < SIZE_MAX
    ensures buf.Valid() && fresh(buf)
    ensures if buf.overflow then |Flatten(chunks)| >= SIZE_MAX else buf.Contents() == Flatten(chunks)
    ensures buf.use + buf.moved <= 3 * |Flatten(chunks)|
  {
    buf := new Buf(size);
    var i := 0;
    while i < |chunks|
      invariant 0 <= i <= |chunks| && buf.Valid() && !buf.isStatic && buf.Thrifty() && fresh(buf) && fresh(buf.mem)
      invariant buf.use + |Flatten(chunks[i..])| <= |Flatten(chunks)|
      invariant if buf.overflow then |Flatten(chunks)| >= SIZE_MAX
                else buf.Contents() + Flatten(chunks[i..]) == Flatten(chunks)
    {
      ghost var before := if buf.overflow then [] else buf.Contents();
      assert chunks[i..][1..] == chunks[i + 1..];
      var _ := buf.Add(chunks[i]);
      assert before + (chunks[i] + Flatten(chunks[i + 1..])) == before + chunks[i] + Flatten(chunks[i + 1..]);
      i := i + 1;
    }
  }

  // --- xmlBuffer --------------------------------------------------------------------------------

  class OldBuffer {
    var contentIO: array<byte>
    var start: nat
    var use: nat
    /** bytes from the start of the content on, with the terminator */
    var size: nat
    /** XML_BUFFER_ALLOC_IO: removing bytes leaves a gap instead of moving the rest */
    const io: bool

    ghost predicate Valid()
      reads this, contentIO
    {
      && contentIO.Length == start + size <= INT_MAX
      && use < size
      && contentIO[start + use] == 0
      && (!io ==> start == 0)
    }

    ghost function Contents(): (s: seq<byte>)
      requires Valid()
      reads this, contentIO
    {
      contentIO[start..start + use]
    }

    /** xmlBufferCreateSize with memory, for one of the two ways to allocate. */
    constructor (size: nat, io: bool)
      requires 0 < size < INT_MAX
      ensures Valid() && fresh(contentIO) && Contents() == [] && this.io == io
    {
      contentIO := new byte[size + 1];
      start, use, this.size, this.io := 0, 0, size + 1, io;
      new;
      contentIO[0] := 0;
    }

    /** xmlBufferEmpty */
    method Empty()
      requires Valid()
      modifies this, contentIO
      ensures Valid() && contentIO == old(contentIO) && Contents() == []
      ensures start == 0 && size == old(start) + old(size)
    {
      use := 0;
      if io {
        size := size + start;
        start := 0;
      }
      contentIO[start] := 0;
    }

    /** The content and its terminator written somewhere else. */
    method Relocate(to: array<byte>, at: nat, ghost kept: seq<byte>)
      requires Valid() && at + use < to.Length && kept == contentIO[start..start + use + 1]
      modifies to
      ensures to[at..at + use] == old(Contents()) && to[at + use] == 0
    {
      ghost var before := to[..];
      Put(to, at, contentIO[start..start + use + 1]);
      WrittenAt(before, at, kept, at, at + use + 1);
      assert to[at..at + use + 1] == to[..][at..at + use + 1] == kept;
      assert to[at..at + use + 1][use] == kept[use] == 0 && to[at..at + use + 1][..use] == kept[..use];
    }

    /** xmlBufferShrink: the number of bytes removed, or -1. */
    method Shrink(len: nat) returns (r: int)
      requires Valid()
      modifies this, contentIO
      ensures Valid() && contentIO == old(contentIO)
      ensures r == if len <= old(use) then len else -1
      ensures Contents() == if r >= 0 then old(Contents())[r..] else old(Contents())
    {
      if len == 0 {
        return 0;
      }
      if len > use {
        return -1;
      }
      if io {
        use := use - len;
        start := start + len;
        size := size - len;
      } else {
        MoveDown(len);
      }
      r := len;
    }

    /** The rest moved to the front of the allocation (buf.c:841). */
    method MoveDown(len: nat)
      requires Valid() && len <= use && start == 0
      modifies this`use, contentIO
      ensures Valid() && Contents() == old(Contents())[len..]
    {
      ghost var before, kept := contentIO[..], contentIO[len..use + 1];
      Put(contentIO, 0, contentIO[len..use + 1]);
      use := use - len;
      WrittenAt(before, 0, kept, 0, use + 1);
      assert contentIO[..use + 1] == contentIO[..][..use + 1] == kept;
      assert kept[use] == 0 && contentIO[..use] == kept[..use] == before[..use + len][len..];
    }

    /** xmlBufferGrow: fails exactly if the size would not fit; otherwise there is room for `len`
        bytes and the terminator. */
    method Grow(len: nat) returns (r: int)
      requires Valid()
      modifies this
      ensures Valid() && (contentIO == old(contentIO) || fresh(contentIO))
      ensures Contents() == old(Contents()) && use == old(use)
      ensures r >= -1 && (r >= 0 <==> use + len < INT_MAX)
      ensures r >= 0 ==> use + len < size
      ensures r < 0 || len < old(size) - use ==> contentIO == old(contentIO) && start == old(start) && size == old(size)
      ensures contentIO != old(contentIO) ==> start == 0 && r == size - use - 1
    {
      if len < size - use {
        return 0;
      }
      if len >= INT_MAX - use {
        return -1;
      }
      var newSize: nat;
      if size > len {
        newSize := if size <= INT_MAX / 2 then size * 2 else INT_MAX;
      } else {
        newSize := use + len + 1;
        if newSize <= INT_MAX - 100 {
          newSize := newSize + 100;
        }
      }
      var newbuf := new byte[newSize];
      Relocate(newbuf, 0, contentIO[start..start + use + 1]);
      contentIO, start, size := newbuf, 0, newSize;
      r := size - use - 1;
    }

    /** xmlBufferAdd */
    method Add(str: seq<byte>) returns (ok: bool)
      requires Valid()
      modifies this, contentIO
      ensures Valid() && (contentIO == old(contentIO) || fresh(contentIO))
      ensures ok <==> str == [] || old(use) + |str| < INT_MAX
      ensures Contents() == if ok then old(Contents()) + str else old(Contents())
    {
      if |str| == 0 {
        return true;
      }
      if |str| >= size - use {
        var r := Grow(|str|);
        if r < 0 {
          return false;
        }
      }
      AppendHere(str);
      ok := true;
    }

    /** The copy and the new terminator (buf.c:1001-1003). */
    method AppendHere(str: seq<byte>)
      requires Valid() && use + |str| < size
      modifies this`use, contentIO
      ensures Valid() && use == old(use) + |str|
      ensures Contents() == old(Contents()) + str
    {
      ghost var before, at := contentIO[..], start + use;
      Put(contentIO, start + use, str);
      WrittenAt(before, at, str, at, at + |str|);
      WrittenAt(before, at, str, start, at);
      assert contentIO[start..at] == contentIO[..][start..at] == before[start..at];
      assert contentIO[at..at + |str|] == contentIO[..][at..at + |str|] == str;
      use := use + |str|;
      contentIO[start + use] := 0;
      assert contentIO[start..start + use] == before[start..at] + str;
    }

    /** The string written in front of content that stands at `at + |str|`. */
    method PutHead(at: nat, str: seq<byte>, ghost rest: seq<byte>)
      requires at + |str| + |rest| < contentIO.Length
      requires contentIO[at + |str|..at + |str| + |rest|] == rest && contentIO[at + |str| + |rest|] == 0
      modifies contentIO
      ensures contentIO[at..at + |str| + |rest|] == str + rest && contentIO[at + |str| + |rest|] == 0
    {
      ghost var before, mid, end := contentIO[..], at + |str|, at + |str| + |rest|;
      Put(contentIO, at, str);
      WrittenAt(before, at, str, at, mid);
      WrittenAt(before, at, str, mid, end);
      WrittenAt(before, at, str, end, end + 1);
      assert contentIO[at..mid] == contentIO[..][at..mid] == str;
      assert contentIO[mid..end] == contentIO[..][mid..end] == before[mid..end];
      assert contentIO[end..end + 1] == contentIO[..][end..end + 1] == before[end..end + 1];
      assert contentIO[end] == contentIO[end..end + 1][0] == before[end..end + 1][0];
      assert contentIO[at..end] == contentIO[at..mid] + contentIO[mid..end];
    }

    /** xmlBufferAddHead: into the gap, by moving the content within the allocation, or after
        growing. */
    method AddHead(str: seq<byte>) returns (ok: bool)
      requires Valid()
      modifies this, contentIO
      ensures Valid() && (contentIO == old(contentIO) || fresh(contentIO))
      ensures ok <==> str == [] || old(use) + |str| < INT_MAX
      ensures Contents() == if ok then str + old(Contents()) else old(Contents())
    {
      if |str| == 0 {
        return true;
      }
      if io && |str| <= start {
        PutHead(start - |str|, str, contentIO[start..start + use]);
        start, use, size := start - |str|, use + |str|, size + |str|;
        return true;
      }
      if io && |str| < size + start - use {
        ShiftAndPut(str);
        return true;
      }
      if |str| >= size - use {
        var r := Grow(|str|);
        if r < 0 {
          return false;
        }
      }
      ShiftAndPut(str);
      ok := true;
    }

    /** The content moved within the allocation, and the string in front of it
        (buf.c:1041-1048, 1056-1058). */
    method ShiftAndPut(str: seq<byte>)
      requires Valid() && use + |str| < start + size
      modifies this, contentIO
      ensures Valid() && contentIO == old(contentIO) && Contents() == str + old(Contents())
    {
      ghost var rest := Contents();
      Relocate(contentIO, |str|, contentIO[start..start + use + 1]);
      PutHead(0, str, rest);
      start, use, size := 0, use + |str|, size + start;
    }
  }

  // --- Runs on the older buffer -------------------------------------------------------------------

  datatype OldOp = AddTail(bytes: seq<byte>) | AddFront(bytes: seq<byte>) | Drop(count: nat) | Room(count: nat) | Reset

  ghost function OldStep(s: seq<byte>, op: OldOp): seq<byte> {
    match op
    case AddTail(b) => if |s| + |b| < 0x7FFF_FFFF then s + b else s
    case AddFront(b) => if |s| + |b| < 0x7FFF_FFFF then b + s else s
    case Drop(n) => if n <= |s| then s[n..] else s
    case Room(_) => s
    case Reset => []
  }

  ghost function OldSteps(s: seq<byte>, ops: seq<OldOp>): seq<byte>
    decreases |ops|
  {
    if ops == [] then s else OldSteps(OldStep(s, ops[0]), ops[1..])
  }

  method PerformOld(buf: OldBuffer, op: OldOp)
    requires buf.Valid()
    modifies buf, buf.contentIO
    ensures buf.Valid() && (buf.contentIO == old(buf.contentIO) || fresh(buf.contentIO))
    ensures buf.Contents() == OldStep(old(buf.Contents()), op)
  {
    match op {
      case AddTail(b) => var _ := buf.Add(b);
      case AddFront(b) => var _ := buf.AddHead(b);
      case Drop(n) => var _ := buf.Shrink(n);
      case Room(n) => var _ := buf.Grow(n);
      case Reset => buf.Empty();
    }
  }

  /** The same for xmlBuffer, prepending included. */
  method PerformAllOld(buf: OldBuffer, ops: seq<OldOp>)
    requires buf.Valid()
    modifies buf, buf.contentIO
    ensures buf.Valid()
    ensures buf.Contents() == OldSteps(old(buf.Contents()), ops)
  {
    hide OldStep;
    ghost var goal := OldSteps(buf.Contents(), ops);
    var i := 0;
    while i < |ops|
      invariant 0 <= i <= |ops| && buf.Valid() && (buf.contentIO == old(buf.contentIO) || fresh(buf.contentIO))
      invariant OldSteps(buf.Contents(), ops[i..]) == goal
    {
      PerformOld(buf, ops[i]);
      assert ops[i..][1..] == ops[i + 1..];
      i := i + 1;
    }
  }
}
