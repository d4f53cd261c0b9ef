/** Free and reserved ranges of kernel addresses (src/kernel/mm/malloc/vmalloc/vmalloc.c). */
module VirtualRanges {
  datatype Span = Span(start: nat, size: nat)

  function End(s: Span): nat {
    s.start + s.size
  }

  predicate In(s: Span, a: nat) {
    s.start <= a < End(s)
  }

  ghost predicate InList(l: seq<Span>, a: nat) {
    exists i {:trigger l[i]} :: 0 <= i < |l| && In(l[i], a)
  }

  /** In order, without overlap. */
  predicate Ordered(l: seq<Span>) {
    && (forall i | 0 <= i < |l| :: l[i].size > 0)
    && (forall i, j | 0 <= i < j < |l| :: End(l[i]) <= l[j].start)
  }

  /** In order, and no two spans touch: the spans are the maximal intervals of the set they cover. */
  predicate Maximal(l: seq<Span>) {
    && (forall i | 0 <= i < |l| :: l[i].size > 0)
    && (forall i, j | 0 <= i < j < |l| :: End(l[i]) < l[j].start)
  }

  function Bytes(l: seq<Span>): nat {
    if l == [] then 0 else Bytes(l[..|l| - 1]) + l[|l| - 1].size
  }

  lemma {:induction false} BytesConcat(a: seq<Span>, b: seq<Span>)
    ensures Bytes(a + b) == Bytes(a) + Bytes(b)
    decreases |b|
  {
    if b == [] {
      assert a + b == a;
    } else {
      assert (a + b)[..|a + b| - 1] == a + b[..|b| - 1];
      BytesConcat(a, b[..|b| - 1]);
    }
  }

  /** Replaces the spans [i, j) of a list. */
  function Splice(l: seq<Span>, i: nat, j: nat, m: seq<Span>): seq<Span>
    requires i <= j <= |l|
  {
    l[..i] + m + l[j..]
  }

  lemma SpliceBytes(l: seq<Span>, i: nat, j: nat, m: seq<Span>)
    requires i <= j <= |l|
    ensures Bytes(Splice(l, i, j, m)) + Bytes(l[i..j]) == Bytes(l) + Bytes(m)
  {
    assert l == l[..i] + l[i..j] + l[j..];
    BytesConcat(l[..i] + l[i..j], l[j..]);
    BytesConcat(l[..i], l[i..j]);
    BytesConcat(l[..i] + m, l[j..]);
    BytesConcat(l[..i], m);
  }

  lemma SpliceAt(l: seq<Span>, i: nat, j: nat, m: seq<Span>)
    requires i <= j <= |l|
    ensures var s := Splice(l, i, j, m);
            && |s| == |l| - (j - i) + |m|
            && forall k | 0 <= k < |s| ::
                 s[k] == if k < i then l[k] else if k < i + |m| then m[k - i] else l[k - |m| + (j - i)]
  {
  }

  lemma SpliceIn(l: seq<Span>, i: nat, j: nat, m: seq<Span>, a: nat)
    requires i <= j <= |l|
    ensures InList(Splice(l, i, j, m), a) <==> InList(l[..i], a) || InList(m, a) || InList(l[j..], a)
  {
    ConcatIn(l[..i] + m, l[j..], a);
    ConcatIn(l[..i], m, a);
  }

  lemma ConcatIn(x: seq<Span>, y: seq<Span>, a: nat)
    ensures InList(x + y, a) <==> InList(x, a) || InList(y, a)
  {
    if InList(x, a) { var i :| 0 <= i < |x| && In(x[i], a); assert In((x + y)[i], a); }
    if InList(y, a) { var i :| 0 <= i < |y| && In(y[i], a); assert In((x + y)[|x| + i], a); }
    if InList(x + y, a) {
      var i :| 0 <= i < |x + y| && In((x + y)[i], a);
      if i < |x| { assert In(x[i], a); } else { assert In(y[i - |x|], a); }
    }
  }

  lemma SplitIn(l: seq<Span>, i: nat, j: nat, a: nat)
    requires i <= j <= |l|
    ensures InList(l, a) <==> InList(l[..i], a) || InList(l[i..j], a) || InList(l[j..], a)
  {
    assert l == l[..i] + l[i..j] + l[j..];
    ConcatIn(l[..i] + l[i..j], l[j..], a);
    ConcatIn(l[..i], l[i..j], a);
  }

  lemma OneIn(s: Span, a: nat)
    ensures InList([s], a) <==> In(s, a)
  {
    if In(s, a) { assert In([s][0], a); }
  }

  // The spans are determined by the addresses they cover

  lemma CoveredRun(l: seq<Span>, s: Span)
    requires Maximal(l) && s.size > 0 && forall a: nat {:trigger InList(l, a)} | In(s, a) :: InList(l, a)
    ensures exists i :: 0 <= i < |l| && l[i].start <= s.start && End(s) <= End(l[i])
  {
    assert InList(l, s.start);
    var i :| 0 <= i < |l| && In(l[i], s.start);
    GapAfter(l, i);
    assert End(l[i]) < End(s) ==> In(s, End(l[i]));
  }

  lemma GapAfter(l: seq<Span>, i: nat)
    requires Maximal(l) && i < |l|
    ensures !InList(l, End(l[i]))
  {
    forall j | 0 <= j < |l| ensures !In(l[j], End(l[i])) {
    }
  }

  lemma SpanShared(l: seq<Span>, m: seq<Span>, i: nat)
    requires Maximal(l) && Maximal(m) &&
    (forall a: nat {:trigger InList(l, a)} {:trigger InList(m, a)} :: InList(l, a) <==> InList(m, a)) && i < |l|
    ensures l[i] in m
  {
    forall a: nat {:trigger InList(m, a)} | In(l[i], a) ensures InList(m, a) { assert InList(l, a); }
    CoveredRun(m, l[i]);
    var j :| 0 <= j < |m| && m[j].start <= l[i].start && End(l[i]) <= End(m[j]);
    forall a: nat {:trigger InList(l, a)} | In(m[j], a) ensures InList(l, a) { assert InList(m, a); }
    CoveredRun(l, m[j]);
    var k :| 0 <= k < |l| && l[k].start <= m[j].start && End(m[j]) <= End(l[k]);
    assert l[k] == l[i];
  }

  /** Two lists of maximal intervals that cover the same addresses are equal. */
  lemma {:induction false} MaximalUnique(l: seq<Span>, m: seq<Span>)
    requires Maximal(l) && Maximal(m)
    requires forall a: nat {:trigger InList(l, a)} {:trigger InList(m, a)} :: InList(l, a) <==> InList(m, a)
    ensures l == m
  {
    forall i: nat | i < |l| ensures l[i] in m { SpanShared(l, m, i); }
    forall i: nat | i < |m| ensures m[i] in l { SpanShared(m, l, i); }
    SameSpans(l, m);
  }

  lemma LastStart(l: seq<Span>, i: nat)
    requires Maximal(l) && i < |l|
    ensures l[i].start <= l[|l| - 1].start && (l[i].start == l[|l| - 1].start ==> i == |l| - 1)
  {
    if i < |l| - 1 { assert End(l[i]) < l[|l| - 1].start; }
  }

  lemma LastShared(l: seq<Span>, m: seq<Span>)
    requires Maximal(l) && Maximal(m) && l != [] && m != [] && l[|l| - 1] in m && m[|m| - 1] in l
    ensures l[|l| - 1] == m[|m| - 1]
  {
    var p, q := |l| - 1, |m| - 1;
    var i :| 0 <= i < |m| && m[i] == l[p];
    var j :| 0 <= j < |l| && l[j] == m[q];
    LastStart(m, i);
    LastStart(l, j);
  }

  lemma InitShared(l: seq<Span>, m: seq<Span>, k: nat)
    requires Maximal(l) && l != [] && m != [] && l[|l| - 1] == m[|m| - 1] && k < |l| - 1 && l[k] in m
    ensures l[..|l| - 1][k] in m[..|m| - 1]
  {
    var h :| 0 <= h < |m| && m[h] == l[k];
    assert End(l[k]) < l[|l| - 1].start;
    assert h != |m| - 1;
    assert m[..|m| - 1][h] == l[k];
  }

  predicate AllIn(l: seq<Span>, m: seq<Span>) {
    forall i | 0 <= i < |l| :: l[i] in m
  }

  lemma AllInAt(l: seq<Span>, m: seq<Span>, i: nat)
    requires AllIn(l, m) && i < |l|
    ensures l[i] in m && m != []
  {
  }

  lemma InitsShared(l: seq<Span>, m: seq<Span>)
    requires Maximal(l) && l != [] && m != [] && l[|l| - 1] == m[|m| - 1] && AllIn(l, m)
    ensures AllIn(l[..|l| - 1], m[..|m| - 1]) && Maximal(l[..|l| - 1])
  {
    var a, b := l[..|l| - 1], m[..|m| - 1];
    forall k | 0 <= k < |a| ensures a[k] in b {
      assert l[k] in m;
      InitShared(l, m, k);
    }
  }

  lemma {:induction false} SameSpans(l: seq<Span>, m: seq<Span>)
    requires Maximal(l) && Maximal(m) && AllIn(l, m) && AllIn(m, l)
    ensures l == m
    decreases |l|
  {
    hide Maximal, AllIn;
    if l == [] {
      if m != [] { AllInAt(m, l, 0); }
    } else {
      var p := |l| - 1;
      AllInAt(l, m, p);
      var q := |m| - 1;
      AllInAt(m, l, q);
      LastShared(l, m);
      InitsShared(l, m);
      InitsShared(m, l);
      SameSpans(l[..p], m[..q]);
      assert l == l[..p] + [l[p]] && m == m[..q] + [m[q]];
    }
  }

  // Taking a range out of a span

  /** What is left of a span once [va, va + bytes) is taken out. */
  function Left(s: Span, va: nat, bytes: nat): seq<Span>
    requires s.start <= va && va + bytes <= End(s)
  {
    (if va == s.start then [] else [Span(s.start, va - s.start)]) +
    (if va + bytes == End(s) then [] else [Span(va + bytes, End(s) - (va + bytes))])
  }

  lemma LeftIn(s: Span, va: nat, bytes: nat, a: nat)
    requires s.start <= va && va + bytes <= End(s)
    ensures InList(Left(s, va, bytes), a) <==> In(s, a) && !(va <= a < va + bytes)
    ensures Bytes(Left(s, va, bytes)) + bytes == s.size
  {
    var x := if va == s.start then [] else [Span(s.start, va - s.start)];
    var y := if va + bytes == End(s) then [] else [Span(va + bytes, End(s) - (va + bytes))];
    ConcatIn(x, y, a);
    BytesConcat(x, y);
    OneIn(Span(s.start, va - s.start), a);
    OneIn(Span(va + bytes, End(s) - (va + bytes)), a);
  }

  lemma TakenMaximal(l: seq<Span>, i: nat, va: nat, bytes: nat)
    requires Maximal(l) && i < |l| && l[i].start <= va && va + bytes <= End(l[i]) && bytes > 0
    ensures Maximal(Splice(l, i, i + 1, Left(l[i], va, bytes)))
  {
    SpliceMaximal(l, i, i + 1, Left(l[i], va, bytes));
  }

  lemma SpliceMaximal(l: seq<Span>, i: nat, j: nat, m: seq<Span>)
    requires Maximal(l) && Maximal(m) && i <= j <= |l|
    requires forall x, y | 0 <= x < i && 0 <= y < |m| :: End(l[x]) < m[y].start
    requires forall y, z | 0 <= y < |m| && j <= z < |l| :: End(m[y]) < l[z].start
    ensures Maximal(Splice(l, i, j, m))
  {
    SpliceAt(l, i, j, m);
    var s := Splice(l, i, j, m);
    hide Splice;
    forall x, y | 0 <= x < y < |s| ensures End(s[x]) < s[y].start {
      var d := (j - i) - |m|;
      assert x < i ==> s[x] == l[x];
      assert i <= x < i + |m| ==> s[x] == m[x - i];
      assert i + |m| <= x ==> s[x] == l[x + d];
      assert y < i ==> s[y] == l[y];
      assert i <= y < i + |m| ==> s[y] == m[y - i];
      assert i + |m| <= y ==> s[y] == l[y + d];
    }
  }

  /** The addresses [va, va + bytes) left the list, and no others. */
  ghost predicate Took(l: seq<Span>, l': seq<Span>, va: nat, bytes: nat) {
    && Maximal(l') && Bytes(l') + bytes == Bytes(l)
    && forall a: nat {:trigger InList(l', a)} :: InList(l', a) <==> InList(l, a) && !(va <= a < va + bytes)
  }

  lemma TakenOut(l: seq<Span>, i: nat, va: nat, bytes: nat)
    requires Maximal(l) && i < |l| && l[i].start <= va && va + bytes <= End(l[i]) && bytes > 0
    ensures Took(l, Splice(l, i, i + 1, Left(l[i], va, bytes)), va, bytes)
    ensures forall a: nat {:trigger InList(l, a)} | va <= a < va + bytes :: InList(l, a)
  {
    var m := Left(l[i], va, bytes);
    TakenMaximal(l, i, va, bytes);
    SpliceBytes(l, i, i + 1, m);
    assert l[i..i + 1] == [l[i]] && Bytes([l[i]]) == l[i].size by { assert [l[i]][..0] == []; }
    LeftIn(l[i], va, bytes, 0);
    forall a: nat {:trigger InList(Splice(l, i, i + 1, m), a)}
      ensures InList(Splice(l, i, i + 1, m), a) <==> InList(l, a) && !(va <= a < va + bytes)
    {
      SpliceIn(l, i, i + 1, m, a);
      SplitIn(l, i, i + 1, a);
      OneIn(l[i], a);
      LeftIn(l[i], va, bytes, a);
      OthersApart(l, i, a);
    }
    forall a: nat {:trigger InList(l, a)} | va <= a < va + bytes ensures InList(l, a) { assert In(l[i], a); }
  }

  lemma OthersApart(l: seq<Span>, i: nat, a: nat)
    requires Maximal(l) && i < |l|
    ensures In(l[i], a) ==> !InList(l[..i], a) && !InList(l[i + 1..], a)
  {
    if In(l[i], a) {
      var n := l[..i];
      forall j | 0 <= j < |n| ensures !In(n[j], a) { }
      var m := l[i + 1..];
      forall j | 0 <= j < |m| ensures !In(m[j], a) { assert m[j] == l[i + 1 + j]; }
    }
  }

  /** A run of free addresses lies in one span. */
  lemma RunInSpan(l: seq<Span>, va: nat, bytes: nat)
    requires Maximal(l) && bytes > 0
    ensures (exists i :: 0 <= i < |l| && l[i].start <= va && va + bytes <= End(l[i])) <==>
            forall a: nat {:trigger InList(l, a)} | va <= a < va + bytes :: InList(l, a)
  {
    if i :| 0 <= i < |l| && l[i].start <= va && va + bytes <= End(l[i]) {
      forall a: nat {:trigger InList(l, a)} | va <= a < va + bytes ensures InList(l, a) { assert In(l[i], a); }
    }
    if forall a: nat {:trigger InList(l, a)} | va <= a < va + bytes :: InList(l, a) {
      CoveredRun(l, Span(va, bytes));
    }
  }

  // Giving a range back

  /** The place of a new span, and what it is joined with (lines 309-355). */
  function Given(l: seq<Span>, k: nat, va: nat, bytes: nat): seq<Span>
    requires k <= |l|
  {
    if k > 0 && End(l[k - 1]) == va then
      if k < |l| && va + bytes == l[k].start then
        Splice(l, k - 1, k + 1, [Span(l[k - 1].start, l[k - 1].size + bytes + l[k].size)])
      else Splice(l, k - 1, k, [Span(l[k - 1].start, l[k - 1].size + bytes)])
    else if k < |l| && va + bytes == l[k].start then Splice(l, k, k + 1, [Span(va, bytes + l[k].size)])
    else Splice(l, k, k, [Span(va, bytes)])
  }

  lemma WriteIsSplice(l: seq<Span>, i: nat, s: Span)
    requires i < |l|
    ensures l[i := s] == Splice(l, i, i + 1, [s])
  {
  }

  lemma InsertIsSplice(l: seq<Span>, k: nat, s: Span)
    requires k <= |l|
    ensures l[..k] + [s] + l[k..] == Splice(l, k, k, [s])
  {
  }

  lemma JoinIsSplice(l: seq<Span>, i: nat, s: Span, s': Span)
    requires i + 1 < |l|
    ensures l[i := s][..i] + [s'] + l[i := s][i + 2..] == Splice(l, i, i + 2, [s'])
  {
  }

  ghost predicate PlaceFor(l: seq<Span>, k: nat, va: nat, bytes: nat) {
    k <= |l| && (forall i | 0 <= i < k :: End(l[i]) <= va) && (forall i | k <= i < |l| :: va + bytes <= l[i].start)
  }

  lemma GivenMaximal(l: seq<Span>, k: nat, va: nat, bytes: nat)
    requires Maximal(l) && PlaceFor(l, k, va, bytes) && bytes > 0
    ensures Maximal(Given(l, k, va, bytes))
  {
    hide Splice;
    if k > 0 && End(l[k - 1]) == va {
      if k < |l| && va + bytes == l[k].start {
        SpliceMaximal(l, k - 1, k + 1, [Span(l[k - 1].start, l[k - 1].size + bytes + l[k].size)]);
      } else {
        SpliceMaximal(l, k - 1, k, [Span(l[k - 1].start, l[k - 1].size + bytes)]);
      }
    } else if k < |l| && va + bytes == l[k].start {
      SpliceMaximal(l, k, k + 1, [Span(va, bytes + l[k].size)]);
    } else {
      SpliceMaximal(l, k, k, [Span(va, bytes)]);
    }
  }

  ghost predicate Gave(l: seq<Span>, l': seq<Span>, va: nat, bytes: nat) {
    && Maximal(l') && Bytes(l') == Bytes(l) + bytes
    && forall a: nat {:trigger InList(l', a)} :: InList(l', a) <==> InList(l, a) || va <= a < va + bytes
  }

  lemma SpliceOne(l: seq<Span>, i: nat, j: nat, s: Span, va: nat, bytes: nat, a: nat)
    requires i <= j <= |l| && Bytes(l[i..j]) + bytes == s.size
    requires In(s, a) <==> InList(l[i..j], a) || va <= a < va + bytes
    ensures InList(Splice(l, i, j, [s]), a) <==> InList(l, a) || va <= a < va + bytes
    ensures Bytes(Splice(l, i, j, [s])) == Bytes(l) + bytes
  {
    SpliceBytes(l, i, j, [s]);
    assert Bytes([s]) == s.size by { assert [s][..0] == []; }
    SpliceIn(l, i, j, [s], a);
    SplitIn(l, i, j, a);
    OneIn(s, a);
  }

  lemma GivenIn(l: seq<Span>, k: nat, va: nat, bytes: nat, a: nat)
    requires Maximal(l) && PlaceFor(l, k, va, bytes) && bytes > 0
    ensures InList(Given(l, k, va, bytes), a) <==> InList(l, a) || va <= a < va + bytes
    ensures Bytes(Given(l, k, va, bytes)) == Bytes(l) + bytes
  {
    assert k <= |l|;
    if k > 0 && End(l[k - 1]) == va {
      if k < |l| && va + bytes == l[k].start {
        JoinBoth(l, k, va, bytes, a);
      } else {
        JoinPrevious(l, k, va, bytes, a);
      }
    } else if k < |l| && va + bytes == l[k].start {
      JoinNext(l, k, va, bytes, a);
    } else {
      assert l[k..k] == [];
      NoneIn(a);
      SpliceOne(l, k, k, Span(va, bytes), va, bytes, a);
    }
  }

  lemma JoinBoth(l: seq<Span>, k: nat, va: nat, bytes: nat, a: nat)
    requires 0 < k < |l| && End(l[k - 1]) == va && va + bytes == l[k].start
    ensures var l' := Splice(l, k - 1, k + 1, [Span(l[k - 1].start, l[k - 1].size + bytes + l[k].size)]);
            (InList(l', a) <==> InList(l, a) || va <= a < va + bytes) && Bytes(l') == Bytes(l) + bytes
  {
    hide Splice, InList, Bytes;
    PairIn(l[k - 1], l[k], a);
    assert l[k - 1..k + 1] == [l[k - 1]] + [l[k]];
    SpliceOne(l, k - 1, k + 1, Span(l[k - 1].start, l[k - 1].size + bytes + l[k].size), va, bytes, a);
  }

  lemma JoinPrevious(l: seq<Span>, k: nat, va: nat, bytes: nat, a: nat)
    requires 0 < k <= |l| && End(l[k - 1]) == va
    ensures var l' := Splice(l, k - 1, k, [Span(l[k - 1].start, l[k - 1].size + bytes)]);
            (InList(l', a) <==> InList(l, a) || va <= a < va + bytes) && Bytes(l') == Bytes(l) + bytes
  {
    hide Splice, InList, Bytes;
    OneIn(l[k - 1], a);
    OneBytes(l[k - 1]);
    assert l[k - 1..k] == [l[k - 1]];
    SpliceOne(l, k - 1, k, Span(l[k - 1].start, l[k - 1].size + bytes), va, bytes, a);
  }

  lemma JoinNext(l: seq<Span>, k: nat, va: nat, bytes: nat, a: nat)
    requires k < |l| && va + bytes == l[k].start
    ensures var l' := Splice(l, k, k + 1, [Span(va, bytes + l[k].size)]);
            (InList(l', a) <==> InList(l, a) || va <= a < va + bytes) && Bytes(l') == Bytes(l) + bytes
  {
    hide Splice, InList, Bytes;
    OneIn(l[k], a);
    OneBytes(l[k]);
    assert l[k..k + 1] == [l[k]];
    SpliceOne(l, k, k + 1, Span(va, bytes + l[k].size), va, bytes, a);
  }

  lemma NoneIn(a: nat)
    ensures !InList([], a) && Bytes([]) == 0
  {
  }

  lemma PairIn(x: Span, y: Span, a: nat)
    ensures InList([x] + [y], a) <==> In(x, a) || In(y, a)
    ensures Bytes([x] + [y]) == x.size + y.size
  {
    ConcatIn([x], [y], a);
    OneIn(x, a);
    OneIn(y, a);
    BytesConcat([x], [y]);
    OneBytes(x);
    OneBytes(y);
  }

  lemma OneBytes(s: Span)
    ensures Bytes([s]) == s.size
  {
    assert [s][..0] == [];
  }

  lemma GivenBack(l: seq<Span>, k: nat, va: nat, bytes: nat)
    requires Maximal(l) && PlaceFor(l, k, va, bytes) && bytes > 0
    ensures Gave(l, Given(l, k, va, bytes), va, bytes)
  {
    GivenMaximal(l, k, va, bytes);
    GivenIn(l, k, va, bytes, 0);
    forall a: nat {:trigger InList(Given(l, k, va, bytes), a)}
      ensures InList(Given(l, k, va, bytes), a) <==> InList(l, a) || va <= a < va + bytes
    {
      GivenIn(l, k, va, bytes, a);
    }
  }

  /** Taking a range and giving it back leaves exactly the same spans. */
  lemma TakeThenGive(l: seq<Span>, l1: seq<Span>, l2: seq<Span>, va: nat, bytes: nat)
    requires Maximal(l) && Took(l, l1, va, bytes) && Gave(l1, l2, va, bytes)
    requires forall a: nat {:trigger InList(l, a)} | va <= a < va + bytes :: InList(l, a)
    ensures l2 == l
  {
    forall a: nat {:trigger InList(l, a)} {:trigger InList(l2, a)} ensures InList(l, a) <==> InList(l2, a) {
      assert InList(l1, a) <==> InList(l, a) && !(va <= a < va + bytes);
    }
    MaximalUnique(l, l2);
  }

  /** A range that meets no span goes before the first span that starts at or after it. */
  lemma FreePlace(l: seq<Span>, k: nat, va: nat, bytes: nat)
    requires Maximal(l) && bytes > 0 && k <= |l| && (forall j | 0 <= j < k :: l[j].start < va)
    requires (k < |l| ==> l[k].start >= va)
    requires forall a: nat {:trigger InList(l, a)} | va <= a < va + bytes :: !InList(l, a)
    ensures PlaceFor(l, k, va, bytes)
  {
    forall i | 0 <= i < k ensures End(l[i]) <= va {
      assert !InList(l, va);
      assert !In(l[i], va);
    }
    forall i | k <= i < |l| ensures va + bytes <= l[i].start {
      var a := l[i].start;
      assert In(l[i], a) && InList(l, a);
    }
  }

  // Reserved spans, which may touch

  lemma ReservedPlace(l: seq<Span>, k: nat, start: nat, bytes: nat)
    requires Ordered(l) && bytes > 0 && k <= |l| && (forall j | 0 <= j < k :: l[j].start < start)
    requires (k < |l| ==> l[k].start >= start)
    requires forall a: nat {:trigger InList(l, a)} | start <= a < start + bytes :: !InList(l, a)
    ensures Ordered(Splice(l, k, k, [Span(start, bytes)]))
  {
    forall i | 0 <= i < k ensures End(l[i]) <= start {
      assert !InList(l, start);
      assert !In(l[i], start);
    }
    forall i | k <= i < |l| ensures start + bytes <= l[i].start {
      var a := l[i].start;
      assert In(l[i], a) && InList(l, a);
    }
    SpliceAt(l, k, k, [Span(start, bytes)]);
    hide Splice;
  }

  lemma InsertedIn(l: seq<Span>, k: nat, s: Span)
    requires k <= |l|
    ensures Bytes(Splice(l, k, k, [s])) == Bytes(l) + s.size
    ensures forall a: nat {:trigger InList(Splice(l, k, k, [s]), a)} ::
              InList(Splice(l, k, k, [s]), a) <==> InList(l, a) || In(s, a)
  {
    hide Splice, Bytes, InList;
    assert l[k..k] == [];
    forall a: nat {:trigger InList(Splice(l, k, k, [s]), a)}
      ensures InList(Splice(l, k, k, [s]), a) <==> InList(l, a) || In(s, a)
    {
      NoneIn(a);
      SpliceOne(l, k, k, s, s.start, s.size, a);
    }
    NoneIn(0);
    OneBytes(s);
    SpliceBytes(l, k, k, [s]);
  }

  lemma DroppedIn(l: seq<Span>, k: nat)
    requires Ordered(l) && k < |l|
    ensures var l' := Splice(l, k, k + 1, []);
            && Ordered(l') && Bytes(l') + l[k].size == Bytes(l)
            && (forall a: nat {:trigger InList(l', a)} :: InList(l', a) <==> InList(l, a) && !In(l[k], a))
    ensures forall a: nat {:trigger InList(l, a)} | In(l[k], a) :: InList(l, a)
  {
    var l' := Splice(l, k, k + 1, []);
    DroppedOrder(l, k);
    SpliceBytes(l, k, k + 1, []);
    assert l[k..k + 1] == [l[k]];
    OneBytes(l[k]);
    NoneIn(0);
    forall a: nat {:trigger InList(l, a)} | In(l[k], a) ensures InList(l, a) { }
    hide Splice, InList, Bytes, Ordered;
    forall a: nat {:trigger InList(l', a)} ensures InList(l', a) <==> InList(l, a) && !In(l[k], a) {
      SpliceIn(l, k, k + 1, [], a);
      SplitIn(l, k, k + 1, a);
      OneIn(l[k], a);
      NoneIn(a);
      NotElsewhere(l, k, a);
    }
  }

  lemma DroppedOrder(l: seq<Span>, k: nat)
    requires Ordered(l) && k < |l|
    ensures Ordered(Splice(l, k, k + 1, []))
  {
    SpliceAt(l, k, k + 1, []);
    hide Splice;
  }

  lemma NotElsewhere(l: seq<Span>, i: nat, a: nat)
    requires Ordered(l) && i < |l|
    ensures In(l[i], a) ==> !InList(l[..i], a) && !InList(l[i + 1..], a)
  {
    var n, m := l[..i], l[i + 1..];
    if In(l[i], a) {
      forall j | 0 <= j < |n| ensures !In(n[j], a) { }
      forall j | 0 <= j < |m| ensures !In(m[j], a) { assert m[j] == l[i + 1 + j]; }
    }
  }

  lemma TookMeans(l: seq<Span>, l': seq<Span>, va: nat, bytes: nat)
    requires Took(l, l', va, bytes)
    ensures Maximal(l') && Bytes(l') + bytes == Bytes(l)
    ensures forall a: nat {:trigger InList(l', a)} {:trigger InList(l, a)} ::
              InList(l', a) <==> InList(l, a) && !(va <= a < va + bytes)
  {
  }

  lemma GaveMeans(l: seq<Span>, l': seq<Span>, va: nat, bytes: nat)
    requires Gave(l, l', va, bytes)
    ensures Maximal(l') && Bytes(l') == Bytes(l) + bytes
    ensures forall a: nat {:trigger InList(l', a)} {:trigger InList(l, a)} ::
              InList(l', a) <==> InList(l, a) || va <= a < va + bytes
  {
  }

  /** Free and reserved addresses make up [lo, hi), and no address is both. */
  ghost predicate Partition(f: seq<Span>, r: seq<Span>, lo: nat, hi: nat) {
    forall a: nat {:trigger InList(f, a)} {:trigger InList(r, a)} ::
      && (InList(f, a) || InList(r, a) <==> lo <= a < hi)
      && !(InList(f, a) && InList(r, a))
  }

  lemma PartitionTake(f: seq<Span>, f': seq<Span>, r: seq<Span>, r': seq<Span>, va: nat, bytes: nat, lo: nat, hi: nat)
    requires Partition(f, r, lo, hi) && Took(f, f', va, bytes)
    requires forall a: nat {:trigger InList(f, a)} | va <= a < va + bytes :: InList(f, a)
    requires forall a: nat {:trigger InList(r', a)} :: InList(r', a) <==> InList(r, a) || va <= a < va + bytes
    ensures Partition(f', r', lo, hi)
  {
    hide InList;
    forall a: nat {:trigger InList(f', a)} {:trigger InList(r', a)}
      ensures (InList(f', a) || InList(r', a) <==> lo <= a < hi) && !(InList(f', a) && InList(r', a))
    {
      assert InList(f', a) <==> InList(f, a) && !(va <= a < va + bytes);
      assert InList(r', a) <==> InList(r, a) || va <= a < va + bytes;
      assert InList(f, a) || InList(r, a) <==> lo <= a < hi;
    }
  }

  lemma PartitionGive(f: seq<Span>, f': seq<Span>, r: seq<Span>, r': seq<Span>, va: nat, bytes: nat, lo: nat, hi: nat)
    requires Partition(f, r, lo, hi) && Gave(f, f', va, bytes)
    requires forall a: nat {:trigger InList(r, a)} | va <= a < va + bytes :: InList(r, a)
    requires forall a: nat {:trigger InList(r', a)} :: InList(r', a) <==> InList(r, a) && !(va <= a < va + bytes)
    ensures Partition(f', r', lo, hi)
  {
    hide InList;
    forall a: nat {:trigger InList(f', a)} {:trigger InList(r', a)}
      ensures (InList(f', a) || InList(r', a) <==> lo <= a < hi) && !(InList(f', a) && InList(r', a))
    {
      assert InList(f', a) <==> InList(f, a) || va <= a < va + bytes;
      assert InList(r', a) <==> InList(r, a) && !(va <= a < va + bytes);
      assert InList(f, a) || InList(r, a) <==> lo <= a < hi;
    }
  }

  lemma NotReserved(f: seq<Span>, r: seq<Span>, va: nat, bytes: nat, lo: nat, hi: nat)
    requires Partition(f, r, lo, hi)
    ensures (forall a: nat {:trigger InList(f, a)} | va <= a < va + bytes :: InList(f, a)) ==>
            forall a: nat {:trigger InList(r, a)} | va <= a < va + bytes :: !InList(r, a)
    ensures (forall a: nat {:trigger InList(r, a)} | va <= a < va + bytes :: InList(r, a)) ==>
            forall a: nat {:trigger InList(f, a)} | va <= a < va + bytes :: !InList(f, a)
  {
    hide InList;
    if forall a: nat {:trigger InList(f, a)} | va <= a < va + bytes :: InList(f, a) {
      forall a: nat {:trigger InList(r, a)} | va <= a < va + bytes ensures !InList(r, a) { assert InList(f, a); }
    }
    if forall a: nat {:trigger InList(r, a)} | va <= a < va + bytes :: InList(r, a) {
      forall a: nat {:trigger InList(f, a)} | va <= a < va + bytes ensures !InList(f, a) { assert InList(r, a); }
    }
  }
}
