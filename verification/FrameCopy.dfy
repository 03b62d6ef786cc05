/** Copying a frame's chain of buffers into one contiguous destination. */
module FrameCopy {
  newtype byte = b: int | 0 <= b < 0x100

  class Entry {
    var next: Entry?
    var data: array?<byte>
    var length: int

    constructor (next: Entry?, data: array?<byte>, length: int)
      ensures this.next == next && this.data == data && this.length == length
    {
      this.next, this.data, this.length := next, data, length;
    }
  }

  class DecodeUnit {
    var fullLength: int
    var bufferList: Entry?

    constructor (fullLength: int, bufferList: Entry?)
      ensures this.fullLength == fullLength && this.bufferList == bufferList
    {
      this.fullLength, this.bufferList := fullLength, bufferList;
    }
  }

  predicate Good(e: Entry)
    reads e
  {
    e.data != null && e.length > 0
  }

  /** Following `next` from `head` visits exactly `path` and then stands at `tail`. */
  predicate Leads(head: Entry?, path: seq<Entry>, tail: Entry?)
    reads path
    decreases |path|
  {
    if path == [] then head == tail else head == path[0] && Leads(path[0].next, path[1..], tail)
  }

  function Total(path: seq<Entry>): int
    reads path
  {
    if path == [] then 0 else Total(path[..|path| - 1]) + path[|path| - 1].length
  }

  /** Each good entry's buffer holds at least the bytes it announces, as its producer
      promises, and none is the destination.  The chain may loop. */
  ghost predicate Readable(cells: set<Entry>, head: Entry?, destination: array?<byte>)
    reads cells
  {
    && (head != null ==> head in cells)
    && forall e | e in cells ::
         && (e.next != null ==> e.next in cells)
         && (Good(e) ==> e.length <= e.data.Length && e.data != destination)
  }

  function Buffers(path: seq<Entry>): set<object>
    reads path
  {
    set e | e in path && e.data != null :: e.data
  }

  /** The announced bytes of the entries, end to end. */
  function Bytes(path: seq<Entry>): seq<byte>
    requires forall e | e in path :: Good(e) && e.length <= e.data.Length
    reads path, Buffers(path)
  {
    if path == [] then []
    else
      var last := path[|path| - 1];
      assert last in path && Good(last);
      Bytes(path[..|path| - 1]) + last.data[..last.length]
  }

  lemma {:induction false} LeadsFurther(head: Entry?, path: seq<Entry>, e: Entry)
    requires Leads(head, path, e)
    ensures Leads(head, path + [e], e.next)
    decreases |path|
  {
    if path != [] {
      LeadsFurther(path[0].next, path[1..], e);
      assert (path + [e])[1..] == path[1..] + [e];
    } else {
      assert (path + [e])[1..] == [];
    }
  }

  /** The chain determines the path: every complete path begins with what was walked. */
  lemma {:induction false} OnePath(head: Entry?, walked: seq<Entry>, here: Entry?, path: seq<Entry>)
    requires Leads(head, walked, here) && Leads(head, path, null)
    ensures walked <= path && Leads(here, path[|walked|..], null)
    decreases |walked|
  {
    if walked != [] {
      OnePath(walked[0].next, walked[1..], here, path[1..]);
      assert path[1..][|walked| - 1..] == path[|walked|..];
      assert path == [path[0]] + path[1..] && walked == [walked[0]] + walked[1..];
    }
  }

  /** The whole chain, all of it good, adds up to the advertised length. */
  predicate Complete(unit: DecodeUnit, path: seq<Entry>)
    reads unit, path
  {
    && Leads(unit.bufferList, path, null)
    && (forall e | e in path :: Good(e))
    && Total(path) == unit.fullLength
  }

  lemma {:induction false} TotalGrows(path: seq<Entry>, n: nat)
    requires n <= |path| && forall e | e in path :: Good(e)
    ensures Total(path[..n]) <= Total(path) && (n < |path| ==> Total(path[..n]) + path[n].length <= Total(path))
    decreases |path|
  {
    if n == |path| {
      assert path[..n] == path;
    } else {
      var init := path[..|path| - 1];
      assert path[|path| - 1] in path;
      TotalGrows(init, n);
      assert init[..n] == path[..n];
    }
  }

  /** Where a walk meets an entry that is bad or too long, no complete chain exists. */
  lemma {:induction false} NoCompletion(unit: DecodeUnit, walked: seq<Entry>, e: Entry, path: seq<Entry>)
    requires Leads(unit.bufferList, walked, e)
    requires !Good(e) || Total(walked) + e.length > unit.fullLength
    ensures !Complete(unit, path)
  {
    if Complete(unit, path) {
      OnePath(unit.bufferList, walked, e, path);
      var n := |walked|;
      assert path[n..][0] == path[n] == e && path[n] in path;
      assert path[..n] == walked;
      TotalGrows(path, n);
    }
  }

  lemma {:induction false} OneEntryMore(path: seq<Entry>, e: Entry)
    requires Good(e) && e.length <= e.data.Length
    requires forall e | e in path :: Good(e) && e.length <= e.data.Length
    ensures Total(path + [e]) == Total(path) + e.length
    ensures forall d | d in path + [e] :: Good(d) && d.length <= d.data.Length
    ensures Bytes(path + [e]) == Bytes(path) + e.data[..e.length]
  {
    assert (path + [e])[..|path|] == path;
  }

  /** The entries walked so far, and their bytes in the destination. */
  ghost predicate Walked(unit: DecodeUnit, walked: seq<Entry>, entry: Entry?, cells: set<Entry>,
                         destination: array<byte>, offset: int)
    reads unit, walked, cells, Buffers(walked), destination
  {
    && Readable(cells, unit.bufferList, destination)
    && Leads(unit.bufferList, walked, entry)
    && (entry != null ==> entry in cells)
    && (forall e | e in walked :: e in cells && Good(e) && e.length <= e.data.Length)
    && 0 <= offset == Total(walked) <= unit.fullLength <= destination.Length
    && destination[..offset] == Bytes(walked)
  }

  /** One good entry that fits in what is left. */
  method CopyEntry(unit: DecodeUnit, ghost walked: seq<Entry>, entry: Entry, ghost cells: set<Entry>,
                   destination: array<byte>, offset: nat)
    returns (next: Entry?, ghost walked': seq<Entry>, offset': nat)
    requires Walked(unit, walked, entry, cells, destination, offset)
    requires Good(entry) && entry.length <= unit.fullLength - offset
    modifies destination
    ensures Walked(unit, walked', next, cells, destination, offset') && offset' > offset
    ensures destination[unit.fullLength..] == old(destination[unit.fullLength..])
  {
    ghost var copied := Bytes(walked);
    assert destination !in Buffers(walked);
    CopyBytes(destination, offset, entry.data, entry.length);
    assert Bytes(walked) == copied;
    LeadsFurther(unit.bufferList, walked, entry);
    OneEntryMore(walked, entry);
    next, walked', offset' := entry.next, walked + [entry], offset + entry.length;
    assert destination[..offset'] == destination[..offset] + destination[offset..offset'];
    Beyond(destination[offset'..], old(destination[offset'..]), unit.fullLength - offset');
    assert destination[offset'..][unit.fullLength - offset'..] == destination[unit.fullLength..];
    assert old(destination[offset'..])[unit.fullLength - offset'..] == old(destination[unit.fullLength..]);
  }

  lemma {:induction false} Beyond(a: seq<byte>, b: seq<byte>, k: nat)
    requires a == b && k <= |a|
    ensures a[k..] == b[k..]
  {
  }

  /** At the end of the chain, no other path is complete. */
  lemma {:induction false} AtTheEnd(unit: DecodeUnit, walked: seq<Entry>)
    requires Leads(unit.bufferList, walked, null)
    ensures forall path: seq<Entry> :: Complete(unit, path) ==> path == walked
  {
    forall path: seq<Entry> | Complete(unit, path)
      ensures path == walked
    {
      OnePath(unit.bufferList, walked, null, path);
      assert path == walked + path[|walked|..];
    }
  }

  lemma {:induction false} NeverComplete(unit: DecodeUnit, walked: seq<Entry>, e: Entry)
    requires Leads(unit.bufferList, walked, e)
    requires !Good(e) || Total(walked) + e.length > unit.fullLength
    ensures forall path: seq<Entry> :: !Complete(unit, path)
  {
    forall path: seq<Entry>
      ensures !Complete(unit, path)
    {
      NoCompletion(unit, walked, e, path);
    }
  }

  method CopyVideoFrame(unit: DecodeUnit?, destination: array?<byte>, destinationLength: nat, ghost cells: set<Entry>)
    returns (result: int, ghost walked: seq<Entry>)
    requires unit != null ==> Readable(cells, unit.bufferList, destination)
    requires destination != null ==> destinationLength <= destination.Length
    modifies destination
    ensures unit == null || destination == null || unit.fullLength <= 0 || destinationLength < unit.fullLength ==>
              result == -1 && (destination != null ==> destination[..] == old(destination[..]))
    ensures unit != null && destination != null && 0 < unit.fullLength <= destinationLength ==>
              && (result == unit.fullLength || result == -1)
              && (result == unit.fullLength <==> exists path: seq<Entry> :: Complete(unit, path))
              && destination[unit.fullLength..] == old(destination[unit.fullLength..])
    ensures result != -1 ==>
              && unit != null && destination != null && result == unit.fullLength && Complete(unit, walked)
              && Walked(unit, walked, null, cells, destination, unit.fullLength)
  {
    walked := [];
    if unit == null || destination == null || unit.fullLength <= 0 {
      return -1, [];
    }
    if destinationLength < unit.fullLength {
      return -1, [];
    }
    result, walked := CopyChain(unit, destination, cells);
  }

  /** Walks the chain.  Every step copies at least one byte of the advertised total, so even
      a chain that loops comes to an end. */
  method CopyChain(unit: DecodeUnit, destination: array<byte>, ghost cells: set<Entry>)
    returns (result: int, ghost walked: seq<Entry>)
    requires Readable(cells, unit.bufferList, destination) && 0 < unit.fullLength <= destination.Length
    modifies destination
    ensures result == unit.fullLength || result == -1
    ensures result == -1 ==> forall path: seq<Entry> :: !Complete(unit, path)
    ensures result != -1 ==> Complete(unit, walked) && Walked(unit, walked, null, cells, destination, unit.fullLength)
    ensures destination[unit.fullLength..] == old(destination[unit.fullLength..])
  {
    var expected := unit.fullLength;
    var offset := 0;
    var entry := unit.bufferList;
    walked := [];
    while entry != null
      invariant Walked(unit, walked, entry, cells, destination, offset)
      invariant destination[expected..] == old(destination[expected..])
      decreases expected - offset
    {
      if entry.data == null || entry.length <= 0 || entry.length > expected - offset {
        NeverComplete(unit, walked, entry);
        return -1, walked;
      }
      entry, walked, offset := CopyEntry(unit, walked, entry, cells, destination, offset);
    }
    AtTheEnd(unit, walked);
    result := if offset == expected then unit.fullLength else -1;
  }

  /** Copies between buffers that do not overlap. */
  method CopyBytes(destination: array<byte>, offset: nat, source: array<byte>, length: nat)
    requires destination != source && offset + length <= destination.Length && length <= source.Length
    modifies destination
    ensures destination[..offset] == old(destination[..offset])
    ensures destination[offset..offset + length] == source[..length]
    ensures destination[offset + length..] == old(destination[offset + length..])
  {
    forall i | 0 <= i < length {
      destination[offset + i] := source[i];
    }
  }
}
