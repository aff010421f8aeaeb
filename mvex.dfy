/**
 * The Movie Extends box `mvex` (ISO/IEC 14496-12, section 8.8.1): a
 * container holding at most one `mehd` child and a non-empty list of `trex`
 * children.  The children's own layouts are not part of this model: each is
 * an opaque box that carries its payload bytes and is as large as its header
 * plus that payload.
 */
module Mvex {
  import opened Mp4Box

  /** A child box seen only from outside: its payload after the 8-byte header. */
  datatype OpaqueBox = OpaqueBox(payload: seq<u8>)

  datatype MvexBox = MvexBox(mehd: Option<OpaqueBox>, trex: seq<OpaqueBox>)

  function BoxSize(child: OpaqueBox): (size: nat)
    ensures size >= HEADER_SIZE
  {
    HEADER_SIZE + |child.payload|
  }

  function MehdSize(mehd: Option<OpaqueBox>): (size: nat) {
    if mehd.Some? then BoxSize(mehd.value) else 0
  }

  /** The sum of the children's sizes, in list order. */
  function SumSizes(trex: seq<OpaqueBox>): (total: nat) {
    if trex == [] then 0 else BoxSize(trex[0]) + SumSizes(trex[1..])
  }

  /** `get_size`: the header, the `mehd` child if any, and every `trex` child. */
  function Size(m: MvexBox): (size: nat)
    ensures size >= HEADER_SIZE
  {
    HEADER_SIZE + MehdSize(m.mehd) + SumSizes(m.trex)
  }

  lemma {:induction false} SumSizesAppend(trex: seq<OpaqueBox>, t: OpaqueBox)
    ensures SumSizes(trex + [t]) == SumSizes(trex) + BoxSize(t)
    decreases |trex|
  {
    if trex == [] {
      assert [] + [t] == [t];
    } else {
      assert (trex + [t])[1..] == trex[1..] + [t];
      SumSizesAppend(trex[1..], t);
    }
  }

  /** Adding a `trex` child grows the box by exactly that child's size. */
  lemma SizeAddTrex(m: MvexBox, t: OpaqueBox)
    ensures Size(m.(trex := m.trex + [t])) == Size(m) + BoxSize(t)
  {
    SumSizesAppend(m.trex, t);
  }

  /** No child is larger than the sum it is part of. */
  lemma {:induction false} SumSizesBound(trex: seq<OpaqueBox>)
    ensures forall t :: t in trex ==> BoxSize(t) <= SumSizes(trex)
    decreases |trex|
  {
    if trex != [] {
      SumSizesBound(trex[1..]);
      assert trex == [trex[0]] + trex[1..];
    }
  }

  /** Every child of `m` is no larger than `m` itself. */
  lemma ChildrenWithin(m: MvexBox)
    ensures m.mehd.Some? ==> BoxSize(m.mehd.value) <= Size(m)
    ensures forall t :: t in m.trex ==> BoxSize(t) <= Size(m)
  {
    SumSizesBound(m.trex);
  }

  // ---------------------------------------------------------------------
  // Writing

  predicate Fits(trex: seq<OpaqueBox>) {
    forall t :: t in trex ==> BoxSize(t) <= MAX_U32
  }

  /** A child as its own `write_box` emits it: header, then payload. */
  function EncodeChild(name: BoxType, child: OpaqueBox): (s: seq<u8>)
    requires BoxSize(child) <= MAX_U32
    ensures |s| == BoxSize(child)
  {
    EncodeHeader(BoxHeader(name, BoxSize(child))) + child.payload
  }

  function EncodeMehd(mehd: Option<OpaqueBox>): (s: seq<u8>)
    requires mehd.Some? ==> BoxSize(mehd.value) <= MAX_U32
    ensures |s| == MehdSize(mehd)
  {
    if mehd.Some? then EncodeChild(MehdType, mehd.value) else []
  }

  function EncodeTrex(trex: seq<OpaqueBox>): (s: seq<u8>)
    requires Fits(trex)
    ensures |s| == SumSizes(trex)
  {
    if trex == [] then [] else EncodeChild(TrexType, trex[0]) + EncodeTrex(trex[1..])
  }

  lemma {:induction false} EncodeTrexAppend(trex: seq<OpaqueBox>, t: OpaqueBox)
    requires Fits(trex) && BoxSize(t) <= MAX_U32
    ensures EncodeTrex(trex + [t]) == EncodeTrex(trex) + EncodeChild(TrexType, t)
    decreases |trex|
  {
    if trex == [] {
      assert [] + [t] == [t];
    } else {
      assert (trex + [t])[1..] == trex[1..] + [t];
      EncodeTrexAppend(trex[1..], t);
      AppendAssoc(EncodeChild(TrexType, trex[0]), EncodeTrex(trex[1..]), EncodeChild(TrexType, t));
    }
  }

  /** What `write_box` emits: the header, the `mehd` child if any, then the
      `trex` children in list order. */
  function Encode(m: MvexBox): (bytes: seq<u8>)
    requires Size(m) <= MAX_U32
    ensures |bytes| == Size(m)
  {
    ChildrenWithin(m);
    EncodeHeader(BoxHeader(MvexType, Size(m))) + EncodeMehd(m.mehd) + EncodeTrex(m.trex)
  }

  /** `write_box`: emits the box child by child and returns its size. */
  method WriteBox(m: MvexBox) returns (written: seq<u8>, size: nat)
    requires Size(m) <= MAX_U32
    ensures written == Encode(m) && size == Size(m)
  {
    ChildrenWithin(m);
    size := Size(m);
    written := EncodeHeader(BoxHeader(MvexType, size));
    if m.mehd.Some? {
      written := written + EncodeChild(MehdType, m.mehd.value);
    }
    ghost var fixed := written;
    for i := 0 to |m.trex|
      invariant written == fixed + EncodeTrex(m.trex[..i])
    {
      TakeNext(m.trex, i);
      EncodeTrexAppend(m.trex[..i], m.trex[i]);
      AppendAssoc(fixed, EncodeTrex(m.trex[..i]), EncodeChild(TrexType, m.trex[i]));
      written := written + EncodeChild(TrexType, m.trex[i]);
    }
    TakeAll(m.trex);
  }

  // ---------------------------------------------------------------------
  // Reading

  const OVERSIZED_CHILD: string := "mvex box contains a box with a larger size than it"

  /** A known child's own `read_box`: its payload runs from after its header
      to the end its header declares. */
  function ReadChild(data: seq<u8>, start: nat, size: nat): (r: Result<OpaqueBox>)
    requires size >= HEADER_SIZE
    ensures r.Success? <==> start + size <= |data|
    ensures r.Success? ==> BoxSize(r.value) == size
  {
    var payload :- ReadBytes(data, start + HEADER_SIZE, size - HEADER_SIZE);
    Success(OpaqueBox(payload))
  }

  /** A child as the loop meets it: a `mehd` or `trex` child that was read,
      or a child of any other type that was skipped by its declared size. */
  datatype Child = MehdChild(box: OpaqueBox) | TrexChild(box: OpaqueBox) | SkippedChild(name: BoxType, size: nat)

  function ChildSize(c: Child): (size: nat) {
    if c.SkippedChild? then c.size else BoxSize(c.box)
  }

  /** One pass of the loop body at `current`: the child header, the check of
      its declared size against `size`, the whole mvex box's size, made before
      anything of the child is read, then the dispatch on its type. */
  function NextChild(data: seq<u8>, current: nat, size: nat): (r: Result<Child>)
    ensures r.Success? ==> HEADER_SIZE <= ChildSize(r.value) <= size
  {
    var header :- ReadHeader(data, current);
    if header.size > size then Failure(InvalidData(OVERSIZED_CHILD))
    else if header.name == MehdType then
      var box :- ReadChild(data, current, header.size);
      Success(MehdChild(box))
    else if header.name == TrexType then
      var box :- ReadChild(data, current, header.size);
      Success(TrexChild(box))
    else Success(SkippedChild(header.name, header.size))
  }

  /** When the loop body gets past a child and what it makes of it: the
      header must be read and declare no more than `size`, and a `mehd` or
      `trex` child must be there in full; an oversized header fails with
      `InvalidData` whatever follows it. */
  lemma NextChildCases(data: seq<u8>, current: nat, size: nat)
    ensures var header := ReadHeader(data, current);
      NextChild(data, current, size).Success? <==>
        && header.Success? && header.value.size <= size
        && (header.value.name == MehdType || header.value.name == TrexType ==> current + header.value.size <= |data|)
    ensures var header := ReadHeader(data, current);
      header.Success? && header.value.size > size ==> NextChild(data, current, size) == Failure(InvalidData(OVERSIZED_CHILD))
    ensures var r := NextChild(data, current, size);
      r.Success? ==>
        && ChildSize(r.value) == ReadHeader(data, current).value.size
        && (r.value.MehdChild? <==> ReadHeader(data, current).value.name == MehdType)
        && (r.value.TrexChild? <==> ReadHeader(data, current).value.name == TrexType)
  {
  }

  /** The loop's update of its state for one child: a `mehd` child replaces
      the slot, a `trex` child is appended, any other child changes nothing. */
  function Absorb(c: Child, mehd: Option<OpaqueBox>, trex: seq<OpaqueBox>): (r: (Option<OpaqueBox>, seq<OpaqueBox>))
  {
    match c
    case MehdChild(box) => (Some(box), trex)
    case TrexChild(box) => (mehd, trex + [box])
    case SkippedChild(_, _) => (mehd, trex)
  }

  /** What one child does to the loop's state: a `mehd` child fills the slot,
      a `trex` child is appended after everything gathered so far, and a
      skipped child changes neither. */
  lemma AbsorbUpdates(c: Child, mehd: Option<OpaqueBox>, trex: seq<OpaqueBox>)
    ensures var (mehd', trex') := Absorb(c, mehd, trex);
      && mehd' == (if c.MehdChild? then Some(c.box) else mehd)
      && trex <= trex' && |trex'| == |trex| + (if c.TrexChild? then 1 else 0)
      && (c.TrexChild? ==> trex'[|trex|] == c.box)
      && (c.SkippedChild? ==> mehd' == mehd && trex' == trex)
  {
  }

  /** The loop of `read_box` from cursor `current` on, with the `mehd` slot
      and the `trex` list gathered so far.  The next header is looked for at
      the end of the child just met, whether or not that is past `end`. */
  function ReadChildren(data: seq<u8>, current: nat, end: nat, size: nat,
                        mehd: Option<OpaqueBox>, trex: seq<OpaqueBox>)
    : (r: Result<(Option<OpaqueBox>, seq<OpaqueBox>)>)
    decreases if current < end then end - current else 0
  {
    if current >= end then Success((mehd, trex))
    else
      var child :- NextChild(data, current, size);
      var (mehd', trex') := Absorb(child, mehd, trex);
      ReadChildren(data, current + ChildSize(child), end, size, mehd', trex')
  }

  /** One turn of the loop: meeting child `c` before `end`. */
  lemma ReadChildrenStep(data: seq<u8>, current: nat, end: nat, size: nat,
                         mehd: Option<OpaqueBox>, trex: seq<OpaqueBox>, c: Child)
    requires current < end && NextChild(data, current, size) == Success(c)
    ensures ReadChildren(data, current, end, size, mehd, trex)
      == ReadChildren(data, current + ChildSize(c), end, size, Absorb(c, mehd, trex).0, Absorb(c, mehd, trex).1)
  {
  }

  /** The loop only ever appends to `trex`: the children gathered before
      `current` stay, in place, at the front of the final list. */
  lemma {:induction false} ReadChildrenKeepsEarlier(data: seq<u8>, current: nat, end: nat, size: nat,
                                                   mehd: Option<OpaqueBox>, trex: seq<OpaqueBox>)
    ensures var r := ReadChildren(data, current, end, size, mehd, trex);
      r.Success? ==> trex <= r.value.1
    decreases if current < end then end - current else 0
  {
    if current < end && NextChild(data, current, size).Success? {
      var c := NextChild(data, current, size).value;
      var (mehd', trex') := Absorb(c, mehd, trex);
      ReadChildrenKeepsEarlier(data, current + ChildSize(c), end, size, mehd', trex');
    }
  }

  /** `read_box` with the mvex header already read and the cursor at `pos`:
      the box with its cursor left at the end the header declares. */
  function ReadBody(data: seq<u8>, pos: nat, size: nat): (r: Result<(MvexBox, nat)>)
    requires pos >= HEADER_SIZE
    ensures r.Success? ==> r.value.0.trex != []
    ensures r.Success? ==> r.value.1 == pos - HEADER_SIZE + size
  {
    var end := pos - HEADER_SIZE + size;
    var (mehd, trex) :- ReadChildren(data, pos, end, size, None, []);
    if trex == [] then Failure(BoxNotFound(TrexType))
    else Success((MvexBox(mehd, trex), end))
  }

  /** A whole mvex box at the start of `bytes`. */
  function Decode(bytes: seq<u8>): (r: Result<MvexBox>)
    ensures r.Success? ==> r.value.trex != []
  {
    var header :- ReadHeader(bytes, 0);
    var read :- ReadBody(bytes, HEADER_SIZE, header.size);
    Success(read.0)
  }

  /** A loop turn that fails ends the loop with its error. */
  lemma ReadChildrenStops(data: seq<u8>, current: nat, end: nat, size: nat,
                          mehd: Option<OpaqueBox>, trex: seq<OpaqueBox>)
    requires current < end && NextChild(data, current, size).Failure?
    ensures ReadChildren(data, current, end, size, mehd, trex) == Failure(NextChild(data, current, size).error)
  {
  }

  /** At or past `end` the loop stops and leaves its state as it is. */
  lemma ReadChildrenDone(data: seq<u8>, current: nat, end: nat, size: nat,
                         mehd: Option<OpaqueBox>, trex: seq<OpaqueBox>)
    requires current >= end
    ensures ReadChildren(data, current, end, size, mehd, trex) == Success((mehd, trex))
  {
  }

  /** The body of `read_box`'s loop up to the next cursor: the child header,
      the check of its declared size against the whole mvex box, then the
      child's own read or a skip by its declared size. */
  method ReadNextChild(data: seq<u8>, current: nat, size: nat) returns (r: Result<Child>)
    ensures r == NextChild(data, current, size)
  {
    var header := ReadHeader(data, current);
    if header.Failure? {
      return Failure(header.error);
    }
    var s := header.value.size;
    if s > size {
      return Failure(InvalidData(OVERSIZED_CHILD));
    }
    if header.value.name == MehdType {
      var box :- ReadChild(data, current, s);
      r := Success(MehdChild(box));
    } else if header.value.name == TrexType {
      var box :- ReadChild(data, current, s);
      r := Success(TrexChild(box));
    } else {
      r := Success(SkippedChild(header.value.name, s));
    }
  }

  /** `read_box`: the `while current < end` loop over child headers. */
  method ReadBox(data: seq<u8>, pos: nat, size: nat) returns (r: Result<(MvexBox, nat)>)
    requires pos >= HEADER_SIZE
    ensures r == ReadBody(data, pos, size)
  {
    var start := pos - HEADER_SIZE;
    var end := start + size;
    var mehd: Option<OpaqueBox> := None;
    var trex: seq<OpaqueBox> := [];
    var current := pos;
    ghost var total := ReadChildren(data, pos, end, size, None, []);
    while current < end
      invariant total == ReadChildren(data, current, end, size, mehd, trex)
      decreases end - current
    {
      var child := ReadNextChild(data, current, size);
      if child.Failure? {
        ReadChildrenStops(data, current, end, size, mehd, trex);
        return Failure(child.error);
      }
      ReadChildrenStep(data, current, end, size, mehd, trex, child.value);
      mehd, trex := Absorb(child.value, mehd, trex).0, Absorb(child.value, mehd, trex).1;
      current := current + ChildSize(child.value);
    }
    ReadChildrenDone(data, current, end, size, mehd, trex);
    if trex == [] {
      return Failure(BoxNotFound(TrexType));
    }
    r := Success((MvexBox(mehd, trex), start + size));
  }

  // ---------------------------------------------------------------------
  // The children one by one

  /** The children between `current` and `end`, in order, each header
      checked against `size` as the loop checks it. */
  function ScanChildren(data: seq<u8>, current: nat, end: nat, size: nat): (r: Result<seq<Child>>)
    decreases if current < end then end - current else 0
  {
    if current >= end then Success([])
    else
      var child :- NextChild(data, current, size);
      var rest :- ScanChildren(data, current + ChildSize(child), end, size);
      Success([child] + rest)
  }

  /** Every child scanned is at least a header long and no larger than the
      mvex box. */
  lemma {:induction false} ScanChildrenBounded(data: seq<u8>, current: nat, end: nat, size: nat)
    ensures ScanChildren(data, current, end, size).Success? ==>
      var cs := ScanChildren(data, current, end, size).value;
      forall i :: 0 <= i < |cs| ==> HEADER_SIZE <= ChildSize(cs[i]) <= size
    decreases if current < end then end - current else 0
  {
    if current < end && ScanChildren(data, current, end, size).Success? {
      var child := NextChild(data, current, size).value;
      var next := current + ChildSize(child);
      assert ScanChildren(data, next, end, size).Success?;
      ScanChildrenBounded(data, next, end, size);
      var cs := ScanChildren(data, current, end, size).value;
      var rest := ScanChildren(data, next, end, size).value;
      assert cs == [child] + rest;
      forall i | 0 <= i < |cs| ensures HEADER_SIZE <= ChildSize(cs[i]) <= size {
        if i > 0 {
          assert cs[i] == rest[i - 1];
        }
      }
    }
  }

  /** The `mehd` slot after the children `cs`, starting from `initial`. */
  function LastMehd(cs: seq<Child>, initial: Option<OpaqueBox>): (slot: Option<OpaqueBox>)
    decreases |cs|
  {
    if cs == [] then initial
    else if cs[|cs| - 1].MehdChild? then Some(cs[|cs| - 1].box)
    else LastMehd(cs[..|cs| - 1], initial)
  }

  /** The last `mehd` child wins; with none, the slot keeps `initial`. */
  lemma {:induction false} LastMehdWins(cs: seq<Child>, initial: Option<OpaqueBox>)
    ensures (forall i :: 0 <= i < |cs| ==> !cs[i].MehdChild?) ==> LastMehd(cs, initial) == initial
    ensures forall i :: (0 <= i < |cs| && cs[i].MehdChild? && (forall j :: i < j < |cs| ==> !cs[j].MehdChild?)
      ==> LastMehd(cs, initial) == Some(cs[i].box))
    decreases |cs|
  {
    if cs != [] && !cs[|cs| - 1].MehdChild? {
      var front := cs[..|cs| - 1];
      LastMehdWins(front, initial);
      assert forall i :: 0 <= i < |front| ==> front[i] == cs[i];
    }
  }

  /** The `trex` children's boxes, in the order of the children. */
  function TrexOf(cs: seq<Child>): (boxes: seq<OpaqueBox>)
    decreases |cs|
  {
    if cs == [] then []
    else TrexOf(cs[..|cs| - 1]) + (if cs[|cs| - 1].TrexChild? then [cs[|cs| - 1].box] else [])
  }

  /** Exactly the boxes of the `trex` children are gathered. */
  lemma {:induction false} TrexOfMembers(cs: seq<Child>)
    ensures forall box :: box in TrexOf(cs) <==> TrexChild(box) in cs
    decreases |cs|
  {
    if cs != [] {
      var front := cs[..|cs| - 1];
      TrexOfMembers(front);
      assert cs == front + [cs[|cs| - 1]];
    }
  }

  /** Gathering `trex` children keeps their order: the children of a
      concatenation give the concatenation of their `trex` boxes. */
  lemma {:induction false} TrexOfAppend(a: seq<Child>, b: seq<Child>)
    ensures TrexOf(a + b) == TrexOf(a) + TrexOf(b)
    decreases |b|
  {
    if b == [] {
      assert a + b == a;
    } else {
      var last := b[|b| - 1];
      var tail: seq<OpaqueBox> := if last.TrexChild? then [last.box] else [];
      assert (a + b)[..|a + b| - 1] == a + b[..|b| - 1];
      TrexOfAppend(a, b[..|b| - 1]);
      AppendAssoc(TrexOf(a), TrexOf(b[..|b| - 1]), tail);
    }
  }

  /** Meeting child `c` first and then `rest` leaves the slot as meeting
      `rest` with the slot `c` left. */
  lemma {:induction false} LastMehdCons(c: Child, rest: seq<Child>, initial: Option<OpaqueBox>)
    ensures LastMehd([c] + rest, initial) == LastMehd(rest, if c.MehdChild? then Some(c.box) else initial)
    decreases |rest|
  {
    if rest != [] {
      assert ([c] + rest)[..|[c] + rest| - 1] == [c] + rest[..|rest| - 1];
      LastMehdCons(c, rest[..|rest| - 1], initial);
    }
  }

  function Gather(scan: Result<seq<Child>>, mehd: Option<OpaqueBox>, trex: seq<OpaqueBox>)
    : (r: Result<(Option<OpaqueBox>, seq<OpaqueBox>)>)
  {
    if scan.Failure? then Failure(scan.error) else Success((LastMehd(scan.value, mehd), trex + TrexOf(scan.value)))
  }

  /** Meeting child `c` and then the children `cs` gathers what meeting `cs`
      gathers from the state `c` leaves. */
  lemma StepGathers(c: Child, cs: seq<Child>, mehd: Option<OpaqueBox>, trex: seq<OpaqueBox>)
    ensures Gather(Success(cs), Absorb(c, mehd, trex).0, Absorb(c, mehd, trex).1) == Gather(Success([c] + cs), mehd, trex)
  {
    LastMehdCons(c, cs, mehd);
    TrexOfAppend([c], cs);
    assert [c][..0] == [];
    var tail: seq<OpaqueBox> := if c.TrexChild? then [c.box] else [];
    assert TrexOf([c]) == [] + tail == tail;
    AppendAssoc(trex, tail, TrexOf(cs));
    assert Absorb(c, mehd, trex).1 == trex + tail;
  }

  /** The loop's state is the summary of the children it has met: the last
      `mehd` wins, every `trex` is appended in order, skipped children change
      nothing, and the loop fails exactly where the scan fails. */
  lemma {:induction false} ReadChildrenGathers(data: seq<u8>, current: nat, end: nat, size: nat,
                                               mehd: Option<OpaqueBox>, trex: seq<OpaqueBox>)
    ensures ReadChildren(data, current, end, size, mehd, trex) == Gather(ScanChildren(data, current, end, size), mehd, trex)
    decreases if current < end then end - current else 0
  {
    if current >= end {
      assert trex + [] == trex;
    } else if NextChild(data, current, size).Success? {
      var c := NextChild(data, current, size).value;
      var next := current + ChildSize(c);
      ReadChildrenGathers(data, next, end, size, Absorb(c, mehd, trex).0, Absorb(c, mehd, trex).1);
      var rest := ScanChildren(data, next, end, size);
      if rest.Success? {
        StepGathers(c, rest.value, mehd, trex);
      }
    }
  }

  /** What `read_box` returns, in terms of the children it meets: it fails
      where the scan fails or when no `trex` child was met, and otherwise
      holds the last `mehd` child and every `trex` child in order. */
  lemma ReadBodyGathers(data: seq<u8>, pos: nat, size: nat)
    requires pos >= HEADER_SIZE
    ensures var scan := ScanChildren(data, pos, pos - HEADER_SIZE + size, size);
      ReadBody(data, pos, size) ==
        if scan.Failure? then Failure(scan.error)
        else if TrexOf(scan.value) == [] then Failure(BoxNotFound(TrexType))
        else Success((MvexBox(LastMehd(scan.value, None), TrexOf(scan.value)), pos - HEADER_SIZE + size))
  {
    var scan := ScanChildren(data, pos, pos - HEADER_SIZE + size, size);
    ReadChildrenGathers(data, pos, pos - HEADER_SIZE + size, size, None, []);
    if scan.Success? {
      assert [] + TrexOf(scan.value) == TrexOf(scan.value);
    }
  }

  // ---------------------------------------------------------------------
  // Reading back what was written

  lemma ReadEncodedChild(data: seq<u8>, pos: nat, name: BoxType, box: OpaqueBox)
    requires Registered(name) && BoxSize(box) <= MAX_U32
    requires IsAt(data, pos, EncodeChild(name, box))
    ensures ReadHeader(data, pos) == Success(BoxHeader(name, BoxSize(box)))
    ensures ReadChild(data, pos, BoxSize(box)) == Success(box)
  {
    SplitAt(data, pos, EncodeHeader(BoxHeader(name, BoxSize(box))), box.payload);
    ReadEncodedHeader(data, pos, BoxHeader(name, BoxSize(box)));
  }

  /** An encoded `mehd` or `trex` child is met as what was written. */
  lemma NextEncodedChild(data: seq<u8>, pos: nat, size: nat, name: BoxType, box: OpaqueBox)
    requires name == MehdType || name == TrexType
    requires BoxSize(box) <= MAX_U32 && BoxSize(box) <= size
    requires IsAt(data, pos, EncodeChild(name, box))
    ensures NextChild(data, pos, size) == Success(if name == MehdType then MehdChild(box) else TrexChild(box))
  {
    ReadEncodedChild(data, pos, name, box);
  }

  /** Encoded `trex` children are read back one by one and appended. */
  lemma {:induction false} ReadEncodedTrex(data: seq<u8>, pos: nat, end: nat, size: nat,
                                           mehd: Option<OpaqueBox>, acc: seq<OpaqueBox>, trex: seq<OpaqueBox>)
    requires Fits(trex) && forall t :: t in trex ==> BoxSize(t) <= size
    requires IsAt(data, pos, EncodeTrex(trex)) && end == pos + SumSizes(trex)
    ensures ReadChildren(data, pos, end, size, mehd, acc) == Success((mehd, acc + trex))
    decreases |trex|
  {
    if trex == [] {
      assert acc + [] == acc;
    } else {
      var t, rest := trex[0], trex[1..];
      ConsTail(trex);
      SplitAt(data, pos, EncodeChild(TrexType, t), EncodeTrex(rest));
      NextEncodedChild(data, pos, size, TrexType, t);
      ReadChildrenStep(data, pos, end, size, mehd, acc, TrexChild(t));
      ReadEncodedTrex(data, pos + BoxSize(t), end, size, mehd, acc + [t], rest);
      AppendAssoc(acc, [t], rest);
    }
  }

  /** The children of an encoded box are read back as they were written. */
  lemma ReadEncodedChildren(data: seq<u8>, m: MvexBox)
    requires Size(m) <= MAX_U32 && IsAt(data, 0, Encode(m))
    ensures ReadChildren(data, HEADER_SIZE, Size(m), Size(m), None, []) == Success((m.mehd, m.trex))
  {
    ChildrenWithin(m);
    var start := HEADER_SIZE + MehdSize(m.mehd);
    var header := EncodeHeader(BoxHeader(MvexType, Size(m)));
    SplitAt(data, 0, header + EncodeMehd(m.mehd), EncodeTrex(m.trex));
    SplitAt(data, 0, header, EncodeMehd(m.mehd));
    var end := Size(m);
    assert end == start + SumSizes(m.trex);
    ReadEncodedTrex(data, start, end, end, m.mehd, [], m.trex);
    assert [] + m.trex == m.trex;
    if m.mehd.Some? {
      var box := m.mehd.value;
      NextEncodedChild(data, HEADER_SIZE, end, MehdType, box);
      ReadChildrenStep(data, HEADER_SIZE, end, end, None, [], MehdChild(box));
      assert Absorb(MehdChild(box), None, []) == (m.mehd, []);
      assert HEADER_SIZE + ChildSize(MehdChild(box)) == start;
    } else {
      assert start == HEADER_SIZE;
    }
  }

  /** Decoding what `write_box` emits gives the box back exactly when it has
      a `trex` child, and fails with `BoxNotFound(TrexBox)` otherwise. */
  lemma DecodeEncode(m: MvexBox)
    requires Size(m) <= MAX_U32
    ensures Decode(Encode(m)) == if m.trex == [] then Failure(BoxNotFound(TrexType)) else Success(m)
  {
    ChildrenWithin(m);
    var header := EncodeHeader(BoxHeader(MvexType, Size(m)));
    var bytes := Encode(m);
    assert IsAt(bytes, 0, bytes) by {
      assert bytes[0..|bytes|] == bytes;
    }
    SplitAt(bytes, 0, header + EncodeMehd(m.mehd), EncodeTrex(m.trex));
    SplitAt(bytes, 0, header, EncodeMehd(m.mehd));
    ReadEncodedHeader(bytes, 0, BoxHeader(MvexType, Size(m)));
    ReadEncodedChildren(bytes, m);
  }

  // ---------------------------------------------------------------------
  // The size check as written

  /** A child header declaring more than the mvex box's size is rejected
      before anything of that child is read. */
  lemma OversizedChildRejected(data: seq<u8>, name: BoxType, size: nat, child: BoxHeader)
    requires ReadHeader(data, 0) == Success(BoxHeader(name, size)) && size > HEADER_SIZE
    requires ReadHeader(data, HEADER_SIZE) == Success(child) && child.size > size
    ensures Decode(data) == Failure(InvalidData(OVERSIZED_CHILD))
  {
  }

  /** The same holds for any child the loop reaches: a header declaring more
      than the mvex box's size ends the loop with `InvalidData`, whatever was
      gathered before it and whatever follows it. */
  lemma OversizedChildStopsLoop(data: seq<u8>, current: nat, end: nat, size: nat,
                                mehd: Option<OpaqueBox>, trex: seq<OpaqueBox>)
    requires current < end && ReadHeader(data, current).Success? && ReadHeader(data, current).value.size > size
    ensures ReadChildren(data, current, end, size, mehd, trex) == Failure(InvalidData(OVERSIZED_CHILD))
  {
  }

  const FREE_CODE: u32 := 0x6672_6565

  /** A 24-byte mvex box: its `trex` child of 8 bytes, then a `free` child
      whose header declares 20 bytes, 12 more than are left in the box. */
  const OVERRUN_SAMPLE: seq<u8> :=
    EncodeHeader(BoxHeader(MvexType, 24))
    + EncodeHeader(BoxHeader(TrexType, 8))
    + EncodeHeader(BoxHeader(UnknownType(FREE_CODE), 20))

  /** The check compares a child's size with the whole mvex box, not with
      what is left of it: a child running past the box's end is accepted,
      and the cursor is then set back to that end. */
  lemma ChildMayOverrunParent()
    ensures ReadBody(OVERRUN_SAMPLE, HEADER_SIZE, 24) == Success((MvexBox(None, [OpaqueBox([])]), 24))
    ensures Decode(OVERRUN_SAMPLE) == Success(MvexBox(None, [OpaqueBox([])]))
  {
    var h0, h1, h2 := EncodeHeader(BoxHeader(MvexType, 24)), EncodeHeader(BoxHeader(TrexType, 8)),
      EncodeHeader(BoxHeader(UnknownType(FREE_CODE), 20));
    var trex := OpaqueBox([]);
    var free := SkippedChild(UnknownType(FREE_CODE), 20);
    ConcatAt(h0 + h1, h2);
    SplitAt(OVERRUN_SAMPLE, 0, h0, h1);
    ReadEncodedHeader(OVERRUN_SAMPLE, 0, BoxHeader(MvexType, 24));
    assert EncodeChild(TrexType, trex) == h1 + [];
    ReadEncodedChild(OVERRUN_SAMPLE, 8, TrexType, trex);
    assert !KnownCode(FREE_CODE);
    ReadEncodedHeader(OVERRUN_SAMPLE, 16, BoxHeader(UnknownType(FREE_CODE), 20));
    assert NextChild(OVERRUN_SAMPLE, 8, 24) == Success(TrexChild(trex));
    ReadChildrenStep(OVERRUN_SAMPLE, 8, 24, 24, None, [], TrexChild(trex));
    assert [] + [trex] == [trex];
    assert Absorb(TrexChild(trex), None, []) == (None, [trex]);
    assert NextChild(OVERRUN_SAMPLE, 16, 24) == Success(free);
    ReadChildrenStep(OVERRUN_SAMPLE, 16, 24, 24, None, [trex], free);
    assert ReadChildren(OVERRUN_SAMPLE, 36, 24, 24, None, [trex]) == Success((None, [trex]));
    assert ReadChildren(OVERRUN_SAMPLE, 8, 24, 24, None, []) == Success((None, [trex]));
  }
}
