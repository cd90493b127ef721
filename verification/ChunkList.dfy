/** The intrusive doubly linked list of partial messages of a secure channel: the LIST
    macros of deps/queue.h and the chunk functions of src/ua_securechannel.c on top. */
module ChunkList {
  import opened Bytes
  import opened Reassembly

  // ------------------------------------------------ lists of entries as tables

  datatype Item = Item(id: uint32, bytes: seq<byte>)

  ghost predicate UniqueIds(c: seq<Item>) {
    forall i, j :: 0 <= i < j < |c| ==> c[i].id != c[j].id
  }

  function TableOf(c: seq<Item>): Pending {
    if c == [] then map[] else TableOf(c[1..])[c[0].id := c[0].bytes]
  }

  lemma {:induction false} TableKeys(c: seq<Item>, id: uint32)
    ensures id in TableOf(c) <==> exists i :: 0 <= i < |c| && c[i].id == id
  {
    if c != [] {
      TableKeys(c[1..], id);
      if i :| 0 <= i < |c| && c[i].id == id {
        assert i > 0 ==> c[1..][i - 1].id == id;
      }
      if id in TableOf(c[1..]) {
        var i :| 0 <= i < |c[1..]| && c[1..][i].id == id;
        assert c[i + 1].id == id;
      }
    }
  }

  lemma {:induction false} TableLookup(c: seq<Item>, k: nat)
    requires UniqueIds(c) && k < |c|
    ensures c[k].id in TableOf(c) && TableOf(c)[c[k].id] == c[k].bytes
  {
    if k > 0 {
      assert c[1..][k - 1] == c[k];
      TableLookup(c[1..], k - 1);
    }
  }

  lemma AbsentId(c: seq<Item>, id: uint32)
    requires forall i :: 0 <= i < |c| ==> c[i].id != id
    ensures id !in TableOf(c) && TableOf(c) - {id} == TableOf(c)
  {
    TableKeys(c, id);
  }

  lemma PresentId(c: seq<Item>, k: nat)
    requires UniqueIds(c) && k < |c|
    ensures TableOf(c) == TableOf(c)[c[k].id := Collected(TableOf(c), c[k].id)]
  {
    TableLookup(c, k);
  }

  lemma FirstItem(c: seq<Item>, id: uint32)
    ensures TableOf([Item(id, [])] + c) == TableOf(c)[id := []]
  {
    assert ([Item(id, [])] + c)[1..] == c;
  }

  lemma {:induction false} TableUpdate(c: seq<Item>, k: nat, bytes: seq<byte>)
    requires UniqueIds(c) && k < |c|
    ensures TableOf(c[k := Item(c[k].id, bytes)]) == TableOf(c)[c[k].id := bytes]
  {
    var d := c[k := Item(c[k].id, bytes)];
    if k == 0 {
      assert d[1..] == c[1..];
    } else {
      assert c[1..][k - 1] == c[k];
      assert d[1..] == c[1..][k - 1 := Item(c[k].id, bytes)];
      TableUpdate(c[1..], k - 1, bytes);
    }
  }

  lemma {:induction false} TableRemove(c: seq<Item>, k: nat)
    requires UniqueIds(c) && k < |c|
    ensures TableOf(c[..k] + c[k + 1..]) == TableOf(c) - {c[k].id}
  {
    var d := c[..k] + c[k + 1..];
    if k == 0 {
      assert d == c[1..];
      TableKeys(c[1..], c[0].id);
      assert TableOf(c) - {c[0].id} == TableOf(c[1..]);
    } else {
      assert c[1..][k - 1] == c[k];
      assert d[1..] == c[1..][..k - 1] + c[1..][k..];
      TableRemove(c[1..], k - 1);
    }
  }

  // ------------------------------------------------------------ the heap structure

  /** le_prev points to the pointer that points here: the list head's when prev is null,
      otherwise the next pointer of prev. */
  class ChunkEntry {
    var next: ChunkEntry?
    var prev: ChunkEntry?
    const requestId: uint32
    var bytes: seq<byte>

    constructor (id: uint32)
      ensures requestId == id && bytes == []
    {
      requestId, bytes, next, prev := id, [], null, null;
    }

    method Append(body: seq<byte>)
      modifies this`bytes
      ensures bytes == old(bytes) + body
    {
      bytes := bytes + body;
    }
  }

  class Chunks {
    var first: ChunkEntry?
    ghost var spine: seq<ChunkEntry>
    ghost var content: seq<Item>

    constructor ()
      ensures Valid() && spine == [] && Table() == map[]
    {
      first, spine, content := null, [], [];
    }

    /** Both pointer chains agree with the spine. */
    ghost predicate Linked()
      reads this, spine
    {
      && (if spine == [] then first == null
          else first == spine[0] && spine[0].prev == null && spine[|spine| - 1].next == null)
      && (forall i {:trigger spine[i].next} :: 0 <= i < |spine| - 1 ==> spine[i].next == spine[i + 1])
      && (forall i {:trigger spine[i].prev} :: 1 <= i < |spine| ==> spine[i].prev == spine[i - 1])
      && (forall i, j :: 0 <= i < j < |spine| ==> spine[i] != spine[j])
    }

    /** Well linked, with at most one entry per request id. */
    ghost predicate Valid()
      reads this, spine
    {
      && Linked()
      && |content| == |spine|
      && (forall i :: 0 <= i < |spine| ==> content[i] == Item(spine[i].requestId, spine[i].bytes))
      && UniqueIds(content)
    }

    /** The list as a table from request id to collected bytes. */
    ghost function Table(): Pending
      reads this
    {
      TableOf(content)
    }

    /** LIST_INSERT_HEAD */
    method InsertHead(e: ChunkEntry)
      requires Linked() && e !in spine
      modifies this`first, this`spine, spine, e
      ensures Linked() && spine == [e] + old(spine)
      ensures forall x :: x in spine ==> x.bytes == old(x.bytes)
    {
      e.next := first;
      if first != null {
        first.prev := e;
      }
      first := e;
      e.prev := null;
      spine := [e] + spine;
    }

    /** LIST_REMOVE */
    method Remove(e: ChunkEntry, ghost k: nat)
      requires Linked() && k < |spine| && spine[k] == e
      modifies this`first, this`spine, spine
      ensures Linked() && spine == old(spine)[..k] + old(spine)[k + 1..]
      ensures forall x :: x in old(spine) ==> x.bytes == old(x.bytes)
    {
      assert k > 0 ==> e.prev == spine[k - 1];
      assert k < |spine| - 1 ==> e.next == spine[k + 1];
      if e.next != null {
        e.next.prev := e.prev;
      }
      if e.prev == null {
        first := e.next;
      } else {
        e.prev.next := e.next;
      }
      spine := spine[..k] + spine[k + 1..];
    }

    /** LIST_FOREACH with a break at the first match. */
    method Find(id: uint32) returns (e: ChunkEntry?, ghost k: nat)
      requires Valid()
      ensures e == null ==> forall i :: 0 <= i < |content| ==> content[i].id != id
      ensures e != null ==> k < |spine| && spine[k] == e && e.requestId == id
    {
      e, k := first, 0;
      while e != null && e.requestId != id
        invariant k <= |spine| && (if k < |spine| then e == spine[k] else e == null)
        invariant forall i :: 0 <= i < k ==> content[i].id != id
        decreases |spine| - k
      {
        e, k := e.next, k + 1;
      }
    }

    /** A new empty entry at the head. */
    method AddEntry(id: uint32) returns (ch: ChunkEntry)
      requires Valid()
      requires forall i :: 0 <= i < |content| ==> content[i].id != id
      modifies this, spine
      ensures Valid() && fresh(ch) && ch.requestId == id
      ensures spine == [ch] + old(spine) && content == [Item(id, [])] + old(content)
    {
      ch := new ChunkEntry(id);
      content := [Item(id, [])] + content;
      InsertHead(ch);
      assert forall i :: 1 <= i < |spine| ==> spine[i] == old(spine)[i - 1] && content[i] == old(content)[i - 1];
    }

    /** appendChunk: grow the entry's buffer. */
    method AppendTo(ch: ChunkEntry, body: seq<byte>, ghost k: nat)
      requires Valid() && k < |spine| && spine[k] == ch
      modifies this`content, ch`bytes
      ensures Valid()
      ensures content == old(content)[k := Item(ch.requestId, old(content)[k].bytes + body)]
    {
      ch.Append(body);
      content := content[k := Item(ch.requestId, ch.bytes)];
    }

    method DropEntry(ch: ChunkEntry, ghost k: nat)
      requires Valid() && k < |spine| && spine[k] == ch
      modifies this, spine
      ensures Valid()
      ensures spine == old(spine)[..k] + old(spine)[k + 1..]
      ensures content == old(content)[..k] + old(content)[k + 1..]
    {
      Remove(ch, k);
      content := content[..k] + content[k + 1..];
    }

    /** The entry of a request id, made empty if there is none. */
    method FindOrAdd(id: uint32) returns (ch: ChunkEntry, ghost k: nat)
      requires Valid()
      modifies this, spine
      ensures Valid() && (forall x :: x in spine ==> x in old(spine) || fresh(x))
      ensures k < |spine| && spine[k] == ch && ch.requestId == id && (ch in old(spine) || fresh(ch))
      ensures Table() == old(Table())[id := Collected(old(Table()), id)]
    {
      var e, i := Find(id);
      if e == null {
        AbsentId(content, id);
        FirstItem(content, id);
        ch := AddEntry(id);
        k := 0;
      } else {
        ch, k := e, i;
        PresentId(content, k);
      }
    }

    /** An intermediate chunk. */
    method AppendChunk(id: uint32, body: seq<byte>)
      requires Valid()
      modifies this, spine
      ensures Valid() && (forall x :: x in spine ==> x in old(spine) || fresh(x))
      ensures Table() == old(Table())[id := Collected(old(Table()), id) + body]
    {
      var ch, k := FindOrAdd(id);
      TableLookup(content, k);
      TableUpdate(content, k, content[k].bytes + body);
      AppendTo(ch, body, k);
    }

    /** An abort chunk. */
    method RemoveChunks(id: uint32)
      requires Valid()
      modifies this, spine
      ensures Valid() && (forall x :: x in spine ==> x in old(spine))
      ensures Table() == old(Table()) - {id}
    {
      var ch, k := Find(id);
      if ch == null {
        AbsentId(content, id);
      } else {
        TableRemove(content, k);
        DropEntry(ch, k);
      }
    }

    /** A final chunk: the completed bytes, which are handed to the callback. */
    method FinalizeChunk(id: uint32, body: seq<byte>) returns (bytes: seq<byte>)
      requires Valid()
      modifies this, spine
      ensures Valid() && (forall x :: x in spine ==> x in old(spine))
      ensures bytes == Collected(old(Table()), id) + body
      ensures Table() == old(Table()) - {id}
    {
      var entry, k := Find(id);
      TableKeys(content, id);
      if entry == null {
        bytes := body;
      } else {
        TableLookup(content, k);
        TableRemove(content, k);
        bytes := TakeEntry(entry, body, k);
      }
    }

    /** Append the last body and unlink the entry. */
    method TakeEntry(entry: ChunkEntry, body: seq<byte>, ghost k: nat) returns (bytes: seq<byte>)
      requires Valid() && k < |spine| && spine[k] == entry
      modifies this, spine
      ensures Valid() && (forall x :: x in spine ==> x in old(spine))
      ensures bytes == old(content)[k].bytes + body && content == old(content)[..k] + old(content)[k + 1..]
    {
      AppendTo(entry, body, k);
      bytes := entry.bytes;
      DropEntry(entry, k);
    }
  }
}
