// Multi-byte access to the paged memory of a network module (SFF-8636, section 6): a fixed lower
// half of 128 bytes, and an upper half selected by page.
module ModuleMem {
  import opened Basics

  const PAGE_SIZE: nat := 128

  datatype Status = Ok | InvalidOffset | InvalidPage | InvalidCount | PageReadFailed | ReadFailed | WriteFailed

  // The module seen through the card-management mailbox. faults decides, for each access in turn,
  // whether the mailbox post behind it fails.
  class Module {
    var lower: seq<Byte>
    var upper: map<Byte, seq<Byte>>
    var accesses: nat
    const faults: nat -> bool

    ghost predicate Valid()
      reads `lower, `upper
    {
      |lower| == PAGE_SIZE
      && forall p: Byte :: p in upper && |upper[p]| == PAGE_SIZE
    }

    // The 256 bytes visible with the given page selected.
    function Visible(page: Byte): (bytes: seq<Byte>)
      requires Valid()
      reads `lower, `upper
      ensures |bytes| == 2 * PAGE_SIZE
      ensures forall o :: 0 <= o < PAGE_SIZE ==> bytes[o] == lower[o]
      ensures forall o :: PAGE_SIZE <= o < 2 * PAGE_SIZE ==> bytes[o] == upper[page][o - PAGE_SIZE]
    {
      lower + upper[page]
    }

    // What one page-sized read delivers.
    function Half(page: Byte, isUpper: bool): (bytes: seq<Byte>)
      requires Valid()
      reads `lower, `upper
      ensures bytes == if isUpper then Visible(page)[PAGE_SIZE..] else Visible(page)[..PAGE_SIZE]
    {
      if isUpper then upper[page] else lower
    }

    // Whether any of the next n accesses fails.
    predicate Faulty(n: nat)
      reads this`accesses
    {
      exists i :: accesses <= i < accesses + n && faults(i)
    }

    lemma FaultyMeans(n: nat)
      ensures Faulty(n) <==> exists i :: accesses <= i < accesses + n && faults(i)
    {
    }

    method PageRead(page: Byte, isUpper: bool) returns (r: Option<seq<Byte>>)
      requires Valid()
      modifies `accesses
      ensures accesses == old(accesses) + 1
      ensures r == if faults(old(accesses)) then None else Some(Half(page, isUpper))
    {
      accesses := accesses + 1;
      if faults(accesses - 1) {
        return None;
      }
      return Some(if isUpper then upper[page] else lower);
    }

    method ByteRead(page: Byte, offset: Byte) returns (r: Option<Byte>)
      requires Valid()
      modifies `accesses
      ensures accesses == old(accesses) + 1
      ensures r == if faults(old(accesses)) then None else Some(Visible(page)[offset])
    {
      accesses := accesses + 1;
      if faults(accesses - 1) {
        return None;
      }
      return Some(if offset >= PAGE_SIZE then upper[page][offset - PAGE_SIZE] else lower[offset]);
    }

    method ByteWrite(page: Byte, offset: Byte, value: Byte) returns (ok: bool)
      requires Valid()
      modifies `accesses, `lower, `upper
      ensures Valid() && accesses == old(accesses) + 1
      ensures ok == !faults(old(accesses))
      ensures Visible(page) == if ok then old(Visible(page))[offset := value] else old(Visible(page))
      ensures forall p: Byte :: p != page ==> upper[p] == old(upper[p])
    {
      accesses := accesses + 1;
      if faults(accesses - 1) {
        return false;
      }
      if offset >= PAGE_SIZE {
        var half: seq<Byte> := upper[page];
        half := half[offset - PAGE_SIZE := value];
        upper := upper[page := half];
      } else {
        lower := lower[offset := value];
      }
      return true;
    }
  }

  // What an 8-bit counter holds.
  function Wrap(n: nat): (b: Byte)
    ensures n < 256 ==> b == n
    ensures 256 <= n < 512 ==> b == n - 256
  {
    n % 256
  }

  // The offset inside its half: the low seven bits.
  function Within(offset: Byte): (o: nat)
    ensures o < PAGE_SIZE && o == offset % PAGE_SIZE
  {
    if offset < PAGE_SIZE then offset else offset - PAGE_SIZE
  }

  // Where byte k of a read from offset comes from: past the end of the visible bytes the page-sized
  // reads start the upper half again.
  function Source(offset: Byte, k: nat): nat {
    if offset + k < 2 * PAGE_SIZE then offset + k else offset + k - PAGE_SIZE
  }

  // The number of page reads: two when the range does not fit the half it starts in.
  function PageReads(offset: Byte, count: nat): nat {
    if Within(offset) + count <= PAGE_SIZE then 1 else 2
  }

  function CountOf(requested: nat): nat { if requested < 1 then PAGE_SIZE else requested }

  // The accesses a read of that many bytes makes: page reads, or one byte read.
  function AccessesFor(offset: Byte, count: nat): nat { if count > 1 then PageReads(offset, count) else 1 }

  method GetMem(m: Module, offset: nat, page: nat, requested: nat) returns (rc: Status, data: seq<Byte>)
    requires m.Valid()
    modifies m`accesses
    ensures offset > 255 ==> rc == InvalidOffset
    ensures offset <= 255 && page > 255 ==> rc == InvalidPage
    ensures offset <= 255 && page <= 255 ==> (rc == InvalidCount <==> requested > 256 - offset)
    ensures offset <= 255 && page <= 255 && requested <= 256 - offset ==>
      var count := CountOf(requested);
      && (rc == Ok <==> !old(m.Faulty(AccessesFor(offset, count))))
      && (rc == Ok ==>
            |data| == count
            && m.accesses == old(m.accesses) + AccessesFor(offset, count)
            && Delivered(data, m.Visible(page), offset, count))
  {
    data := [];
    if offset > 255 {
      return InvalidOffset, data;
    }
    if page > 255 {
      return InvalidPage, data;
    }
    var count := requested;
    if count < 1 {
      count := PAGE_SIZE;
    } else if count > 256 - offset {
      return InvalidCount, data;
    }
    if count > 1 {
      rc, data := ReadPages(m, offset, page, count);
    } else {
      var value := m.ByteRead(page, offset);
      if value == None {
        assert m.faults(old(m.accesses));
        return ReadFailed, data;
      }
      return Ok, [value.value];
    }
  }

  // The first n bytes of the buffer are those a read from offset should deliver.
  ghost predicate Delivered(buf: seq<Byte>, visible: seq<Byte>, offset: Byte, n: nat)
    requires |visible| == 2 * PAGE_SIZE
  {
    n <= |buf| && forall k :: 0 <= k < n ==>
      Source(offset, k) < 2 * PAGE_SIZE && buf[k] == visible[Source(offset, k)]
  }

  method CopyBytes(buf: array<Byte>, at: nat, bytes: seq<Byte>, from: nat, n: nat)
    requires at + n <= buf.Length && from + n <= |bytes|
    modifies buf
    ensures buf[..] == old(buf[..])[..at] + bytes[from..from + n] + old(buf[..])[at + n..]
  {
    forall k | 0 <= k < n {
      buf[at + k] := bytes[from + k];
    }
  }

  // A part of one half is a part of the whole.
  lemma PartOfHalf(visible: seq<Byte>, isUpper: bool, from: nat, n: nat)
    requires |visible| == 2 * PAGE_SIZE && from + n <= PAGE_SIZE
    ensures var start := (if isUpper then PAGE_SIZE else 0) + from;
            var half := if isUpper then visible[PAGE_SIZE..] else visible[..PAGE_SIZE];
            half[from..from + n] == visible[start..start + n]
  {
  }

  // One page read, and the copy of n of its bytes into the buffer.
  method ReadInto(m: Module, page: Byte, isUpper: bool, from: nat, n: nat, buf: array<Byte>, at: nat) returns (ok: bool)
    requires m.Valid() && from + n <= PAGE_SIZE && at + n <= buf.Length
    modifies m`accesses, buf
    ensures m.accesses == old(m.accesses) + 1 && ok == !m.faults(old(m.accesses))
    ensures var start := (if isUpper then PAGE_SIZE else 0) + from;
      ok ==> buf[..] == old(buf[..])[..at] + m.Visible(page)[start..start + n] + old(buf[..])[at + n..]
  {
    hide *;
    var bytes := m.PageRead(page, isUpper);
    if bytes == None {
      return false;
    }
    PartOfHalf(m.Visible(page), isUpper, from, n);
    CopyBytes(buf, at, bytes.value, from, n);
    return true;
  }

  // One round of the read loop extends what has been delivered.
  lemma Extends(buf: seq<Byte>, next: seq<Byte>, visible: seq<Byte>, offset: Byte, filled: nat, n: nat, from: nat)
    requires |visible| == 2 * PAGE_SIZE && from + n <= 2 * PAGE_SIZE && filled + n <= |buf|
    requires Delivered(buf, visible, offset, filled)
    requires next == buf[..filled] + visible[from..from + n] + buf[filled + n..]
    requires forall k :: filled <= k < filled + n ==> Source(offset, k) == from + (k - filled)
    ensures Delivered(next, visible, offset, filled + n)
  {
    forall k | 0 <= k < filled + n
      ensures Source(offset, k) < 2 * PAGE_SIZE && next[k] == visible[Source(offset, k)]
    {
    }
  }

  // The counters of the read loop after a number of page rounds, with filled bytes in the buffer.
  ghost predicate Counters(offset: Byte, count: nat, rounds: nat, filled: nat,
      pageOffset: nat, dataCount: nat, dataOffset: nat, isUpper: bool, more: bool)
  {
    && filled <= count && dataOffset == Wrap(filled)
    && (more <==> filled < count)
    && if !more then rounds == PageReads(offset, count)
       else
         && 0 < dataCount <= PAGE_SIZE - pageOffset && filled + dataCount <= count && filled < 256
         && if rounds == 0 then
              && filled == 0 && pageOffset == Within(offset) && isUpper == (offset >= PAGE_SIZE)
              && dataCount == if count < PAGE_SIZE - pageOffset then count else PAGE_SIZE - pageOffset
            else
              && rounds == 1 && PageReads(offset, count) == 2
              && isUpper && pageOffset == 0 && filled == PAGE_SIZE - Within(offset) && dataCount == count - filled
  }

  lemma RoundsStart(buf: seq<Byte>, visible: seq<Byte>, offset: Byte, count: nat, dataCount: nat)
    requires 1 < count <= 256 && |visible| == 2 * PAGE_SIZE
    requires dataCount == if count < PAGE_SIZE - Within(offset) then count else PAGE_SIZE - Within(offset)
    ensures Counters(offset, count, 0, 0, Within(offset), dataCount, 0, offset >= PAGE_SIZE, true)
    ensures Delivered(buf, visible, offset, 0)
  {
  }

  // A round reads inside a page and writes inside the buffer, and another read is due; after the
  // last round the buffer is full.
  lemma CountersInside(offset: Byte, count: nat, rounds: nat, filled: nat,
      pageOffset: nat, dataCount: nat, dataOffset: nat, isUpper: bool)
    requires 1 < count <= 256 && (count <= 256 - offset || count == PAGE_SIZE)
    requires Counters(offset, count, rounds, filled, pageOffset, dataCount, dataOffset, isUpper, true)
    ensures pageOffset + dataCount <= PAGE_SIZE && filled == dataOffset && filled + dataCount <= count
    ensures rounds < PageReads(offset, count) <= 2
  {
  }

  lemma CountersEnd(offset: Byte, count: nat, rounds: nat, filled: nat,
      pageOffset: nat, dataCount: nat, dataOffset: nat, isUpper: bool)
    requires Counters(offset, count, rounds, filled, pageOffset, dataCount, dataOffset, isUpper, false)
    ensures filled == count && rounds == PageReads(offset, count)
  {
  }

  // The counters advance as described, also where the 8-bit ones wrap around (CountersStep), and the
  // bytes copied are the next ones wanted (CountersAim).
  lemma CountersStep(offset: Byte, count: nat, rounds: nat, filled: nat,
      pageOffset: nat, dataCount: nat, dataOffset: nat, isUpper: bool)
    requires 1 < count <= 256 && (count <= 256 - offset || count == PAGE_SIZE)
    requires Counters(offset, count, rounds, filled, pageOffset, dataCount, dataOffset, isUpper, true)
    ensures var next := Wrap(dataOffset + dataCount);
            var left := Wrap(count - next);
            Counters(offset, count, rounds + 1, filled + dataCount, 0, left, next, true, left > 0)
  {
  }

  lemma CountersAim(offset: Byte, count: nat, rounds: nat, filled: nat,
      pageOffset: nat, dataCount: nat, dataOffset: nat, isUpper: bool, k: nat)
    requires 1 < count <= 256 && (count <= 256 - offset || count == PAGE_SIZE)
    requires Counters(offset, count, rounds, filled, pageOffset, dataCount, dataOffset, isUpper, true)
    requires filled <= k < filled + dataCount
    ensures Source(offset, k) == (if isUpper then PAGE_SIZE else 0) + pageOffset + (k - filled)
  {
  }

  // A whole round of the loop: the buffer now holds what the next counters say.
  lemma Round(was: seq<Byte>, next: seq<Byte>, visible: seq<Byte>, offset: Byte, count: nat, rounds: nat,
      filled: nat, pageOffset: nat, dataCount: nat, dataOffset: nat, isUpper: bool)
    requires 1 < count <= 256 && (count <= 256 - offset || count == PAGE_SIZE)
    requires |visible| == 2 * PAGE_SIZE && |was| == count && Delivered(was, visible, offset, filled)
    requires Counters(offset, count, rounds, filled, pageOffset, dataCount, dataOffset, isUpper, true)
    requires var start := (if isUpper then PAGE_SIZE else 0) + pageOffset;
      next == was[..dataOffset] + visible[start..start + dataCount] + was[dataOffset + dataCount..]
    ensures Delivered(next, visible, offset, filled + dataCount)
  {
    forall k | filled <= k < filled + dataCount
      ensures Source(offset, k) == (if isUpper then PAGE_SIZE else 0) + pageOffset + (k - filled)
    {
      CountersAim(offset, count, rounds, filled, pageOffset, dataCount, dataOffset, isUpper, k);
    }
    Extends(was, next, visible, offset, filled, dataCount, (if isUpper then PAGE_SIZE else 0) + pageOffset);
  }

  // The page read of one round.
  method ReadRound(m: Module, offset: Byte, page: Byte, count: nat, ghost rounds: nat, ghost filled: nat,
      pageOffset: nat, dataCount: nat, dataOffset: nat, isUpper: bool, buf: array<Byte>) returns (ok: bool)
    requires m.Valid() && 1 < count <= 256 && (count <= 256 - offset || count == PAGE_SIZE) && buf.Length == count
    requires Counters(offset, count, rounds, filled, pageOffset, dataCount, dataOffset, isUpper, true)
    requires Delivered(buf[..], m.Visible(page), offset, filled)
    modifies m`accesses, buf
    ensures m.accesses == old(m.accesses) + 1 && ok == !m.faults(old(m.accesses))
    ensures ok ==> Delivered(buf[..], m.Visible(page), offset, filled + dataCount)
  {
    ghost var was := buf[..];
    CountersInside(offset, count, rounds, filled, pageOffset, dataCount, dataOffset, isUpper);
    hide Counters, Delivered;
    ok := ReadInto(m, page, isUpper, pageOffset, dataCount, buf, dataOffset);
    if ok {
      Round(was, buf[..], m.Visible(page), offset, count, rounds, filled, pageOffset, dataCount, dataOffset, isUpper);
    }
  }

  // The read loop. page_offset, data_count and data_offset are 8-bit counters.
  method ReadPages(m: Module, offset: Byte, page: Byte, count: nat) returns (rc: Status, data: seq<Byte>)
    requires m.Valid() && 1 < count <= 256
    requires count <= 256 - offset || count == PAGE_SIZE
    modifies m`accesses
    ensures rc in {Ok, PageReadFailed}
    ensures rc == Ok <==> !old(m.Faulty(PageReads(offset, count)))
    ensures rc == Ok ==> m.accesses == old(m.accesses) + PageReads(offset, count)
    ensures rc == Ok ==> |data| == count && Delivered(data, m.Visible(page), offset, count)
  {
    hide *;
    var pageOffset: nat := Within(offset);
    var dataCount: nat := if count < PAGE_SIZE - pageOffset then count else PAGE_SIZE - pageOffset;
    var dataOffset: nat := 0;
    var buf := new Byte[count](_ => 0);
    var isUpper := offset >= PAGE_SIZE;
    var more := true;
    ghost var first, filled: nat := m.accesses, 0;
    m.FaultyMeans(PageReads(offset, count));
    RoundsStart(buf[..], m.Visible(page), offset, count, dataCount);
    while more
      invariant first <= m.accesses <= first + PageReads(offset, count)
      invariant forall i :: first <= i < m.accesses ==> !m.faults(i)
      invariant Counters(offset, count, m.accesses - first, filled, pageOffset, dataCount, dataOffset, isUpper, more)
      invariant Delivered(buf[..], m.Visible(page), offset, filled)
      decreases first + 2 - m.accesses, more
    {
      ghost var rounds := m.accesses - first;
      CountersInside(offset, count, rounds, filled, pageOffset, dataCount, dataOffset, isUpper);
      CountersStep(offset, count, rounds, filled, pageOffset, dataCount, dataOffset, isUpper);
      var ok := ReadRound(m, offset, page, count, rounds, filled, pageOffset, dataCount, dataOffset, isUpper, buf);
      if !ok {
        assert m.faults(m.accesses - 1);
        return PageReadFailed, [];
      }
      filled := filled + dataCount;
      isUpper := true;
      pageOffset := 0;
      dataOffset := Wrap(dataOffset + dataCount);
      dataCount := Wrap(count - dataOffset);
      more := dataCount > 0;
    }
    CountersEnd(offset, count, m.accesses - first, filled, pageOffset, dataCount, dataOffset, isUpper);
    data := buf[..];
    return Ok, data;
  }

  // Which requests see exactly the bytes offset, offset + 1, ...: all those with an explicit count,
  // and those with count 0 (which means 128 and is not checked against the end) up to offset 128.
  lemma RangeExact(offset: Byte, requested: nat)
    requires requested <= 256 - offset
    ensures (forall k: nat :: k < CountOf(requested) ==> Source(offset, k) == offset + k)
       <==> requested >= 1 || offset <= PAGE_SIZE
  {
    if requested == 0 && offset > PAGE_SIZE {
      assert Source(offset, PAGE_SIZE - 1) != offset + (PAGE_SIZE - 1);
    }
  }

  // Asking for the default count at offset 200 ends with bytes from below offset 200.
  lemma DefaultCountWraps(m: Module, page: Byte, data: seq<Byte>)
    requires m.Valid() && |data| == CountOf(0) && Delivered(data, m.Visible(page), 200, CountOf(0))
    ensures data[127] == m.Visible(page)[199]
  {
    assert Source(200, 127) == 199;
  }

  function Patched(bytes: seq<Byte>, offset: nat, data: seq<Byte>): (r: seq<Byte>)
    requires offset + |data| <= |bytes|
    ensures |r| == |bytes|
    ensures forall i :: 0 <= i < |r| ==>
      r[i] == if offset <= i < offset + |data| then data[i - offset] else bytes[i]
  {
    bytes[..offset] + data + bytes[offset + |data|..]
  }

  lemma PatchedStep(bytes: seq<Byte>, offset: nat, data: seq<Byte>, b: nat)
    requires offset + |data| <= |bytes| && b < |data|
    ensures Patched(bytes, offset, data[..b])[offset + b := data[b]] == Patched(bytes, offset, data[..b + 1])
  {
  }

  // Writing is byte by byte and stops at the first failing access.
  method WriteBytes(m: Module, offset: Byte, page: Byte, data: seq<Byte>) returns (rc: Status)
    requires m.Valid() && |data| <= 256 - offset
    modifies m`accesses, m`lower, m`upper
    ensures m.Valid() && rc in {Ok, WriteFailed}
    ensures rc == Ok <==> !old(m.Faulty(|data|))
    ensures rc == Ok ==> m.accesses == old(m.accesses) + |data|
    ensures rc == Ok ==> m.Visible(page) == Patched(old(m.Visible(page)), offset, data)
    ensures forall p: Byte :: p != page ==> m.upper[p] == old(m.upper[p])
  {
    ghost var was := m.Visible(page);
    assert Patched(was, offset, data[..0]) == was;
    for b := 0 to |data|
      invariant m.Valid() && m.accesses == old(m.accesses) + b
      invariant forall i :: old(m.accesses) <= i < old(m.accesses) + b ==> !m.faults(i)
      invariant m.Visible(page) == Patched(was, offset, data[..b])
      invariant forall p: Byte :: p != page ==> m.upper[p] == old(m.upper[p])
    {
      var ok := m.ByteWrite(page, offset + b, data[b]);
      if !ok {
        assert m.faults(old(m.accesses) + b);
        return WriteFailed;
      }
      PatchedStep(was, offset, data, b);
    }
    assert data[..|data|] == data;
    return Ok;
  }

  method SetMem(m: Module, offset: nat, page: nat, data: seq<Byte>) returns (rc: Status)
    requires m.Valid()
    modifies m`accesses, m`lower, m`upper
    ensures m.Valid()
    ensures offset > 255 ==> rc == InvalidOffset
    ensures offset <= 255 && page > 255 ==> rc == InvalidPage
    ensures offset <= 255 && page <= 255 ==>
      && (rc == InvalidCount <==> |data| > 256 - offset)
      && (forall p: Byte :: p != page ==> m.upper[p] == old(m.upper[p]))
      && (|data| <= 256 - offset ==>
            && (rc == Ok <==> !old(m.Faulty(|data|)))
            && (rc == Ok ==> m.accesses == old(m.accesses) + |data|)
            && (rc == Ok ==> m.Visible(page) == Patched(old(m.Visible(page)), offset, data)))
    ensures rc in {InvalidOffset, InvalidPage, InvalidCount} ==>
      m.accesses == old(m.accesses) && m.lower == old(m.lower) && m.upper == old(m.upper)
  {
    if offset > 255 {
      return InvalidOffset;
    }
    if page > 255 {
      return InvalidPage;
    }
    if |data| > 256 - offset {
      return InvalidCount;
    }
    rc := WriteBytes(m, offset, page, data);
  }

  lemma PatchedReadsBack(bytes: seq<Byte>, offset: Byte, data: seq<Byte>, got: seq<Byte>)
    requires |bytes| == 2 * PAGE_SIZE && offset + |data| <= 256 && |got| == |data|
    requires Delivered(got, Patched(bytes, offset, data), offset, |data|)
    ensures got == data
  {
    forall k | 0 <= k < |data| ensures got[k] == data[k] {
      assert Source(offset, k) == offset + k;
    }
  }

  // Setting and then getting the same range succeeds exactly when the range is valid and none of the
  // accesses needed fails; it returns the data, and no byte outside the range, on this or any other
  // page, has changed.
  method SetThenGet(m: Module, offset: nat, page: nat, data: seq<Byte>) returns (rc: Status, got: seq<Byte>)
    requires m.Valid() && |data| >= 1
    modifies m`accesses, m`lower, m`upper
    ensures rc == Ok <==> offset <= 255 && page <= 255 && |data| <= 256 - offset
                          && !old(m.Faulty(|data| + AccessesFor(offset, |data|)))
    ensures rc == Ok ==> got == data
    ensures rc == Ok ==> m.Valid() && m.Visible(page) == Patched(old(m.Visible(page)), offset, data)
    ensures rc == Ok ==> forall p: Byte :: p != page ==> m.upper[p] == old(m.upper[p])
  {
    got := [];
    ghost var was := if page <= 255 then m.Visible(page) else [];
    rc := SetMem(m, offset, page, data);
    if rc != Ok {
      return;
    }
    rc, got := GetMem(m, offset, page, |data|);
    if rc == Ok {
      PatchedReadsBack(was, offset, data, got);
    }
  }
}
