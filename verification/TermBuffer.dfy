/**
 * The chunked queue of bytes behind a terminal (src/kernel/io/term/buffers.c). A chunk is one allocation: a header and
 * the bytes it holds.
 */
module TermBuffer {
  import opened Arithmetic
  import opened Descriptors

  /** `sizeof(term_buffer)`. */
  const HEADER: nat := 32

  datatype Chunk = Chunk(buf: array<char>, head: nat, tail: nat)

  function Footprint(c: Chunk): nat {
    c.buf.Length + HEADER
  }

  ghost function Arrays(l: seq<Chunk>): set<array<char>> {
    set k | 0 <= k < |l| :: l[k].buf
  }

  /** The bytes of a chunk that were pushed and not yet popped. */
  ghost predicate Shows(c: Chunk, s: seq<char>)
    reads c.buf
  {
    c.head <= c.tail <= c.buf.Length && s == c.buf[c.head..c.tail]
  }

  /** The bytes of the chunks, in order. */
  ghost function Flat(held: seq<seq<char>>): seq<char> {
    if held == [] then [] else held[0] + Flat(held[1..])
  }

  ghost function Total(l: seq<Chunk>): nat {
    if l == [] then 0 else Footprint(l[0]) + Total(l[1..])
  }

  ghost predicate Apart(l: seq<Chunk>) {
    forall i, j | 0 <= i < j < |l| :: l[i].buf != l[j].buf
  }

  /** A chunk is a number of whole pages, it holds something, and all but the last are filled to their end. */
  predicate ChunkOk(l: seq<Chunk>, k: nat)
    requires k < |l|
  {
    var c := l[k];
    && c.head < c.tail <= c.buf.Length && Footprint(c) % PAGE_SIZE == 0
    && (k < |l| - 1 ==> c.tail == c.buf.Length)
  }

  ghost predicate ChunksOk(l: seq<Chunk>) {
    Apart(l) && forall k {:trigger ChunkOk(l, k)} | 0 <= k < |l| :: ChunkOk(l, k)
  }

  predicate LastFull(l: seq<Chunk>) {
    l == [] || l[|l| - 1].tail == l[|l| - 1].buf.Length
  }

  lemma ChunksAppend(l: seq<Chunk>, c: Chunk)
    requires ChunksOk(l) && LastFull(l) && c.buf !in Arrays(l)
    requires c.head < c.tail <= c.buf.Length && Footprint(c) % PAGE_SIZE == 0
    ensures ChunksOk(l + [c])
  {
    var whole := l + [c];
    forall k | 0 <= k < |whole| ensures ChunkOk(whole, k) {
      if k < |l| { assert ChunkOk(l, k); }
    }
    forall k | 0 <= k < |l| ensures l[k].buf != c.buf { assert l[k].buf in Arrays(l); }
  }

  lemma ChunksFront(l: seq<Chunk>)
    requires ChunksOk(l) && l != []
    ensures var front := l[..|l| - 1];
            ChunksOk(front) && LastFull(front) && l[|l| - 1].buf !in Arrays(front) && ChunkOk(l, |l| - 1)
  {
    var front := l[..|l| - 1];
    forall k | 0 <= k < |front| ensures ChunkOk(front, k) && front[k].tail == front[k].buf.Length {
      assert ChunkOk(l, k);
    }
  }

  lemma ChunksRest(l: seq<Chunk>)
    requires ChunksOk(l) && l != []
    ensures ChunksOk(l[1..]) && Arrays(l[1..]) <= Arrays(l) && ChunkOk(l, 0)
  {
    forall k | 0 <= k < |l| - 1 ensures ChunkOk(l[1..], k) && l[1..][k].buf in Arrays(l) {
      assert ChunkOk(l, k + 1) && l[k + 1] == l[1..][k];
    }
  }

  lemma ChunksHead(l: seq<Chunk>, head: nat)
    requires ChunksOk(l) && l != [] && head < l[0].tail
    ensures ChunksOk(l[0 := l[0].(head := head)]) && Arrays(l[0 := l[0].(head := head)]) == Arrays(l)
  {
    var l' := l[0 := l[0].(head := head)];
    forall k | 0 <= k < |l| ensures ChunkOk(l', k) && l'[k].buf == l[k].buf {
      assert ChunkOk(l, k);
    }
    assert forall x :: x in Arrays(l') <==> x in Arrays(l);
  }

  lemma {:induction false} FlatLast(held: seq<seq<char>>, s: seq<char>)
    ensures Flat(held + [s]) == Flat(held) + s
  {
    if held == [] {
      assert (held + [s])[1..] == [];
    } else {
      assert (held + [s])[1..] == held[1..] + [s];
      FlatLast(held[1..], s);
    }
  }

  lemma {:induction false} TotalLast(l: seq<Chunk>, c: Chunk)
    ensures Total(l + [c]) == Total(l) + Footprint(c)
  {
    if l == [] {
    } else {
      assert (l + [c])[1..] == l[1..] + [c];
      TotalLast(l[1..], c);
    }
  }

  lemma {:induction false} ChunksWhole(l: seq<Chunk>)
    requires ChunksOk(l)
    ensures Total(l) % PAGE_SIZE == 0
  {
    if l != [] {
      ChunksRest(l);
      ChunksWhole(l[1..]);
      hide ChunksOk;
      var f, r := Footprint(l[0]), Total(l[1..]);
      DivUnique(f + r, PAGE_SIZE, f / PAGE_SIZE + r / PAGE_SIZE, 0);
    }
  }

  class Buffer {
    var chunks: seq<Chunk>
    var size: nat
    var reserved: nat
    ghost var held: seq<seq<char>>

    ghost predicate Valid()
      reads this, Arrays(chunks)
    {
      && ChunksOk(chunks) && |held| == |chunks|
      && (forall k {:trigger Shows(chunks[k], held[k])} | 0 <= k < |chunks| :: Shows(chunks[k], held[k]))
      && size == |Flat(held)| && reserved == Total(chunks)
    }

    /** What the queue holds. */
    ghost function Contents(): seq<char>
      reads this
    {
      Flat(held)
    }

    /** `term_buffer_handle_new`. */
    constructor ()
      ensures Valid() && chunks == [] && Contents() == []
    {
      chunks, size, reserved, held := [], 0, 0, [];
    }

    /** `alloc_tail`: an empty chunk at the end. */
    method AllocTail(bytes: nat)
      requires bytes >= PAGE_SIZE && reserved == Total(chunks)
      modifies this`chunks, this`reserved
      ensures exists c {:trigger old(chunks) + [c]} ::
                && chunks == old(chunks) + [c] && fresh(c.buf)
                && c.head == c.tail == 0 && c.buf.Length == bytes - HEADER
      ensures reserved == old(reserved) + bytes && reserved == Total(chunks)
    {
      var buf := new char[bytes - HEADER];
      var c := Chunk(buf, 0, 0);
      TotalLast(chunks, c);
      chunks := chunks + [c];
      reserved := reserved + bytes;
    }

    /** A byte at the end of the last chunk, which may still be empty. */
    method Store(c: char, ghost front: seq<Chunk>, ghost last: Chunk, ghost heldFront: seq<seq<char>>)
      requires chunks == front + [last] && last.tail < last.buf.Length && |heldFront| == |front|
      requires ChunksOk(front) && LastFull(front) && last.buf !in Arrays(front) && Footprint(last) % PAGE_SIZE == 0
      requires forall k {:trigger Shows(front[k], heldFront[k])} | 0 <= k < |front| :: Shows(front[k], heldFront[k])
      requires exists s :: Shows(last, s) && Flat(held) == Flat(heldFront) + s
      requires size == |Flat(held)| && reserved == Total(chunks)
      modifies this, last.buf
      ensures Valid() && Contents() == old(Contents()) + [c]
      ensures chunks == front + [last.(tail := last.tail + 1)] && reserved == old(reserved)
    {
      hide ChunksOk, ChunkOk, Flat, Total;
      ghost var s :| Shows(last, s) && Flat(held) == Flat(heldFront) + s;
      var k := |chunks| - 1;
      var x := chunks[k];
      assert forall j | 0 <= j < |front| :: front[j].buf in Arrays(front) && front[j].buf != x.buf;
      x.buf[x.tail] := c;
      var x' := x.(tail := x.tail + 1);
      chunks := chunks[k := x'];
      size := size + 1;
      held := heldFront + [s + [c]];
      assert chunks == front + [x'] && Shows(x', s + [c]);
      TotalLast(front, x);
      TotalLast(front, x');
      FlatLast(heldFront, s + [c]);
      ChunksAppend(front, x');
      forall j | 0 <= j < |chunks| ensures Shows(chunks[j], held[j]) {
        if j < |front| { assert Shows(front[j], heldFront[j]); }
      }
    }

    /** `term_buffer_push`. A new chunk doubles what is reserved. */
    method Push(c: char) returns (n: nat)
      requires Valid()
      modifies this, Arrays(chunks)
      ensures Valid() && fresh(Arrays(chunks) - old(Arrays(chunks)))
      ensures Contents() == old(Contents()) + [c] && n == |Contents()|
      ensures reserved in {old(reserved), old(reserved) + PAGE_SIZE, 2 * old(reserved)}
    {
      hide ChunksOk, Flat, Total;
      ghost var l := chunks;
      if l != [] { ChunksFront(l); }
      if chunks == [] || chunks[|chunks| - 1].tail >= chunks[|chunks| - 1].buf.Length {
        ChunksWhole(chunks);
        AllocTail(if PAGE_SIZE >= reserved then PAGE_SIZE else reserved);
        ghost var last :| chunks == l + [last] && fresh(last.buf) && last.head == last.tail == 0 &&
                          last.buf.Length == (if PAGE_SIZE >= old(reserved) then PAGE_SIZE else old(reserved)) - HEADER;
        assert Shows(last, []) && Flat(held) == Flat(held) + [];
        Store(c, l, last, held);
      } else {
        ghost var k := |chunks| - 1;
        ghost var front, last := chunks[..k], chunks[k];
        assert chunks == front + [last] && held == held[..k] + [held[k]];
        FlatLast(held[..k], held[k]);
        assert Shows(last, held[k]);
        forall j | 0 <= j < k ensures Shows(front[j], held[..k][j]) { assert Shows(chunks[j], held[j]); }
        Store(c, front, last, held[..k]);
      }
      n := size;
    }

    /** `term_buffer_peek`. */
    method Peek() returns (n: nat, c: char)
      requires Valid()
      ensures n == |Contents()| && (n > 0 ==> c == Contents()[0])
    {
      if size == 0 {
        return 0, '\0';
      }
      assert Shows(chunks[0], held[0]) && ChunkOk(chunks, 0);
      return size, chunks[0].buf[chunks[0].head];
    }

    /** Bytes leave the first chunk; `free_head` when it is empty. */
    method Advance(take: nat)
      requires Valid() && chunks != [] && 0 < take <= chunks[0].tail - chunks[0].head
      modifies this
      ensures Valid() && Arrays(chunks) <= old(Arrays(chunks))
      ensures take <= |old(Contents())| && Contents() == old(Contents())[take..]
    {
      hide ChunksOk;
      var c := chunks[0];
      ghost var l, h := chunks, held;
      assert Shows(c, h[0]);
      size := size - take;
      if c.head + take == c.tail {
        ChunksRest(l);
        chunks := chunks[1..];
        reserved := reserved - Footprint(c);
        held := h[1..];
        forall k | 0 <= k < |chunks| ensures Shows(chunks[k], held[k]) { assert Shows(l[k + 1], h[k + 1]); }
      } else {
        ChunksHead(l, c.head + take);
        chunks := chunks[0 := c.(head := c.head + take)];
        held := h[0 := h[0][take..]];
        assert chunks[1..] == l[1..] && held[1..] == h[1..];
        forall k | 0 <= k < |chunks| ensures Shows(chunks[k], held[k]) {
          if k > 0 { assert Shows(l[k], h[k]); }
        }
      }
    }

    /** `term_buffer_pop`. */
    method Pop() returns (ok: bool, c: char)
      requires Valid()
      modifies this
      ensures Valid() && Arrays(chunks) <= old(Arrays(chunks))
      ensures ok <==> old(Contents()) != []
      ensures ok ==> c == old(Contents())[0] && Contents() == old(Contents())[1..]
      ensures !ok ==> Contents() == old(Contents())
    {
      if size == 0 {
        return false, '\0';
      }
      assert Shows(chunks[0], held[0]) && ChunkOk(chunks, 0);
      c := chunks[0].buf[chunks[0].head];
      Advance(1);
      ok := true;
    }

    /** The `memcpy` out of a chunk. */
    static method CopyBytes(c: Chunk, take: nat, out: array<char>, at: nat, ghost s: seq<char>)
      requires Shows(c, s) && take <= |s| && at + take <= out.Length && c.buf != out
      modifies out
      ensures out[..at + take] == old(out[..at]) + s[..take] && out[at + take..] == old(out[at + take..])
    {
      forall k | 0 <= k < take {
        out[at + k] := c.buf[c.head + k];
      }
    }

    /** `term_buffer_pop_n`. */
    method PopMany(n: nat, out: array<char>) returns (popped: nat)
      requires Valid() && n <= out.Length && out !in Arrays(chunks)
      modifies this, out
      ensures Valid() && Arrays(chunks) <= old(Arrays(chunks))
      ensures popped == if n <= |old(Contents())| then n else |old(Contents())|
      ensures Contents() == old(Contents())[popped..]
      ensures out[..popped] == old(Contents())[..popped] && out[popped..] == old(out[popped..])
    {
      hide ChunksOk, Total;
      popped := 0;
      ghost var before := Contents();
      while popped < n && size > 0
        invariant Valid() && Arrays(chunks) <= old(Arrays(chunks))
        invariant popped <= n && popped <= |before| && Contents() == before[popped..]
        invariant out[..popped] == before[..popped] && out[popped..] == old(out[popped..])
        decreases n - popped
      {
        ghost var l, done := chunks, popped;
        assert l != [] && Shows(l[0], held[0]);
        ChunksRest(l);
        var c := chunks[0];
        var available := c.tail - c.head;
        var take := if available <= n - popped then available else n - popped;
        assert held[0][..take] == before[done..done + take] by { assert held[0] <= before[done..]; }
        assert c.buf in Arrays(chunks);
        CopyBytes(c, take, out, popped, held[0]);
        Advance(take);
        popped := popped + take;
        assert before[done..][take..] == before[popped..];
      }
    }
  }
}
