/** The reassembler's table of fragment sets: expiry, memory bound, and one fragment at a time. */
module Table {
  import opened Bytes
  import opened Ipv4
  import opened Fragment
  import opened Reassemble

  const HIGH_THRESHOLD: nat := 4 * 1024 * 1024
  const LOW_THRESHOLD: nat := 3 * 1024 * 1024

  type Sets = map<Key, FragSet>

  /** What `process` returns: nothing, a complete packet, or a slice bound exceeded while assembling. */
  datatype Outcome = Nothing | Complete(pkt: seq<byte>) | Fault

  /** Fragments that are looked at: not empty, within the largest payload, and whole 8-byte units unless last. */
  predicate Accepted(hdr: seq<byte>, data: seq<byte>)
    requires |hdr| >= MIN_HEADER
  {
    && |data| > 0 && FragmentOffset(hdr) * 8 + |data| <= MAX_PAYLOAD
    && (More(hdr) ==> |data| % 8 == 0)
  }

  // ----- One set -----

  ghost function Size(frags: seq<Frag>): nat {
    if frags == [] then 0 else |frags[0].data| + Size(frags[1..])
  }

  ghost predicate Disjoint(f: Frag, g: Frag) {
    f.End() <= g.offset || g.End() <= f.offset
  }

  ghost predicate Clear(f: Frag, s: seq<Frag>) {
    forall i :: 0 <= i < |s| ==> Disjoint(f, s[i])
  }

  /** No fragment is empty and no two overlap. */
  ghost predicate Apart(s: seq<Frag>) {
    && (forall i :: 0 <= i < |s| ==> |s[i].data| > 0)
    && (forall i, j :: 0 <= i < j < |s| ==> Disjoint(s[i], s[j]))
  }

  /** Some fragment ends at `end`. */
  ghost predicate EndsAt(s: seq<Frag>, end: int) {
    exists f :: f in s && f.End() == end
  }

  ghost predicate SetOk(s: FragSet) {
    && Apart(s.fragments) && s.mem == Size(s.fragments)
    && (s.header == [] || |s.header| >= MIN_HEADER)
    && (s.totalLen >= 0 ==> EndsAt(s.fragments, s.totalLen))
  }

  lemma HeaderOk(s: FragSet)
    requires SetOk(s)
    ensures s.header == [] || |s.header| >= MIN_HEADER
  {
  }

  lemma {:induction false} SizeAppend(s: seq<Frag>, f: Frag)
    ensures Size(s + [f]) == Size(s) + |f.data|
  {
    if s == [] {
      assert s + [f] == [f];
    } else {
      assert (s + [f])[1..] == s[1..] + [f];
      SizeAppend(s[1..], f);
    }
  }

  lemma {:induction false} InsertApart(f: Frag, s: seq<Frag>)
    requires Apart(s) && Clear(f, s) && |f.data| > 0
    ensures Apart(Insert(f, s)) && Size(Insert(f, s)) == Size(s) + |f.data|
    ensures forall g :: Clear(g, s) && Disjoint(g, f) ==> Clear(g, Insert(f, s))
  {
    hide Disjoint;
    DisjointSymmetric();
    if s == [] || f.offset <= s[0].offset {
      assert ([f] + s)[1..] == s;
    } else {
      InsertApart(f, s[1..]);
      var r := Insert(f, s[1..]);
      assert Clear(s[0], s[1..]) && Disjoint(s[0], f);
      assert Clear(s[0], r);
      assert ([s[0]] + r)[1..] == r;
      forall g | Clear(g, s) && Disjoint(g, f)
        ensures Clear(g, Insert(f, s))
      {
        assert Clear(g, s[1..]) && Disjoint(g, s[0]);
      }
    }
  }

  lemma DisjointSymmetric()
    ensures forall f, g :: Disjoint(f, g) <==> Disjoint(g, f)
  {
  }

  /** Sorting moves fragments about and no more. */
  lemma {:induction false} SortApart(s: seq<Frag>)
    requires Apart(s)
    ensures Apart(Sort(s)) && Size(Sort(s)) == Size(s)
    ensures forall g :: Clear(g, s) ==> Clear(g, Sort(s))
  {
    hide Disjoint;
    if s != [] {
      SortApart(s[1..]);
      assert Clear(s[0], s[1..]);
      InsertApart(s[0], Sort(s[1..]));
      forall g | Clear(g, s)
        ensures Clear(g, Sort(s))
      {
        assert Clear(g, s[1..]) && Disjoint(g, s[0]);
      }
    }
  }

  /** A free range overlaps nothing, and only a free range. */
  lemma {:induction false} FreeMeansClear(s: seq<Frag>, f: Frag)
    ensures ClashWith(s, f.offset, f.End()) == Free <==> Clear(f, s)
  {
    if s != [] {
      FreeMeansClear(s[1..], f);
      if Disjoint(f, s[0]) {
        assert Clear(f, s) <==> Clear(f, s[1..]);
      }
    }
  }

  /** Whatever a set keeps is disjoint and counted, in order of arrival or sorted. */
  lemma StoreOk(s: FragSet, f: Frag, kept: FragSet)
    requires SetOk(s) && |f.data| > 0 && ClashWith(s.fragments, f.offset, f.End()) == Free
    requires kept.fragments == s.fragments + [f] || kept.fragments == Sort(s.fragments + [f])
    requires kept.mem == s.mem + |f.data| && (kept.header == [] || |kept.header| >= MIN_HEADER)
    requires kept.totalLen == s.totalLen || kept.totalLen == f.End()
    ensures SetOk(kept)
  {
    hide Sort, ClashWith, Disjoint;
    FreeMeansClear(s.fragments, f);
    DisjointSymmetric();
    SizeAppend(s.fragments, f);
    assert Apart(s.fragments + [f]);
    SortApart(s.fragments + [f]);
    SortMembers(s.fragments + [f]);
    assert forall g :: g in s.fragments + [f] <==> g in s.fragments || g == f;
  }

  // ----- Completeness -----

  ghost predicate ByOffset(s: seq<Frag>) {
    forall i, j :: 0 <= i < j < |s| ==> s[i].offset <= s[j].offset
  }

  lemma {:induction false} InsertSorted(f: Frag, s: seq<Frag>)
    requires ByOffset(s)
    ensures ByOffset(Insert(f, s)) && forall g :: g in Insert(f, s) <==> g == f || g in s
  {
    if s == [] || f.offset <= s[0].offset {
      assert forall g :: g in [f] + s <==> g == f || g in s;
    } else {
      InsertSorted(f, s[1..]);
      var r := Insert(f, s[1..]);
      assert s == [s[0]] + s[1..];
      forall g | g in r
        ensures s[0].offset <= g.offset
      {
        if g != f {
          var i :| 0 < i < |s| && s[i] == g;
        }
      }
      FirstBefore(s[0], r);
    }
  }

  lemma FirstBefore(f: Frag, r: seq<Frag>)
    requires ByOffset(r) && forall g :: g in r ==> f.offset <= g.offset
    ensures ByOffset([f] + r)
  {
    assert forall k :: 0 <= k < |r| ==> r[k] in r;
  }

  lemma {:induction false} SortMembers(s: seq<Frag>)
    ensures ByOffset(Sort(s)) && forall g :: g in Sort(s) <==> g in s
  {
    if s != [] {
      SortMembers(s[1..]);
      InsertSorted(s[0], Sort(s[1..]));
      assert s == [s[0]] + s[1..];
    }
  }

  /** Position `x` lies in some fragment. */
  ghost predicate Arrived(s: seq<Frag>, x: int) {
    exists f :: f in s && f.offset <= x < f.End()
  }

  lemma ArrivedStep(s: seq<Frag>, x: int)
    requires s != []
    ensures Arrived(s, x) <==> s[0].offset <= x < s[0].End() || Arrived(s[1..], x)
  {
    assert s == [s[0]] + s[1..];
    if Arrived(s, x) && !(s[0].offset <= x < s[0].End()) {
      var f :| f in s && f.offset <= x < f.End();
      assert f in s[1..];
    }
  }

  /** The rest of a sorted and disjoint list lies behind its first fragment. */
  lemma RestBehind(s: seq<Frag>)
    requires s != [] && ByOffset(s) && Apart(s)
    ensures ByOffset(s[1..]) && Apart(s[1..]) && forall f :: f in s[1..] ==> s[0].End() <= f.offset
  {
    forall f | f in s[1..]
      ensures s[0].End() <= f.offset
    {
      var i :| 0 < i < |s| && s[i] == f;
      assert Disjoint(s[0], s[i]);
    }
  }

  /** The walk of `complete` over sorted fragments succeeds exactly when every position up to the end has arrived. */
  lemma {:induction false} TilingMeans(s: seq<Frag>, next: nat, total: nat)
    requires ByOffset(s) && Apart(s) && next < total && EndsAt(s, total) && forall f :: f in s ==> next <= f.offset
    ensures Tiling(s, next, total) <==> forall x :: next <= x < total ==> Arrived(s, x)
    decreases |s|
  {
    hide Arrived, Apart;
    var end := s[0].End();
    FirstEnd(s, total);
    RestBehind(s);
    forall x
      ensures Arrived(s, x) <==> s[0].offset <= x < end || Arrived(s[1..], x)
      ensures x < end ==> !Arrived(s[1..], x)
    {
      ArrivedStep(s, x);
      if x < end {
        NotBefore(s[1..], end, x);
      }
    }
    if s[0].offset == next && end < total {
      TilingMeans(s[1..], end, total);
    } else if s[0].offset != next {
      assert !Arrived(s, next);
    }
  }

  /** The fragment that ends the datagram is the first, or all of the first lies before the end. */
  lemma FirstEnd(s: seq<Frag>, total: nat)
    requires ByOffset(s) && Apart(s) && EndsAt(s, total)
    ensures s != [] && s[0].End() <= total && (s[0].End() < total ==> EndsAt(s[1..], total))
    ensures |s[0].data| > 0
  {
    var f :| f in s && f.End() == total;
    assert s == [s[0]] + s[1..];
    RestBehind(s);
    if f in s[1..] {
      var i :| 0 < i < |s| && s[i] == f;
      assert |s[i].data| > 0;
    }
  }

  lemma NotBefore(s: seq<Frag>, end: int, x: int)
    requires x < end && forall f :: f in s ==> end <= f.offset
    ensures !Arrived(s, x)
  {
  }

  /** A set is complete exactly when every byte of the datagram has arrived, in whatever order. */
  lemma CompleteIff(s: FragSet)
    requires SetOk(s) && s.totalLen > 0
    ensures Tiling(Sort(s.fragments), 0, s.totalLen) <==> forall x :: 0 <= x < s.totalLen ==> Arrived(s.fragments, x)
  {
    hide Sort, Tiling, Apart;
    SortMembers(s.fragments);
    SortApart(s.fragments);
    TilingMeans(Sort(s.fragments), 0, s.totalLen);
    forall x
      ensures Arrived(Sort(s.fragments), x) <==> Arrived(s.fragments, x)
    {
      SameArrived(Sort(s.fragments), s.fragments, x);
    }
  }

  lemma SameArrived(s: seq<Frag>, t: seq<Frag>, x: int)
    requires forall g :: g in s <==> g in t
    ensures Arrived(s, x) <==> Arrived(t, x)
  {
  }

  /** Assembly puts every byte of every fragment that lies within the datagram in its place. */
  lemma {:induction false} OverlayHolds(raw: seq<byte>, frags: seq<Frag>, i: nat, k: nat)
    requires Apart(frags) && InBounds(frags, |raw|)
    requires i < |frags| && k < |frags[i].data| && frags[i].offset + k < |raw|
    ensures Overlay(raw, frags)[frags[i].offset + k] == frags[i].data[k]
    decreases |frags|
  {
    hide Disjoint;
    var f, at := frags[0], frags[i].offset + k;
    var next := Blit(raw, f.offset, f.data);
    assert forall j :: 0 <= j < |frags[1..]| ==> frags[1..][j] == frags[j + 1];
    if i > 0 {
      OverlayHolds(next, frags[1..], i - 1, k);
    } else {
      forall j | 0 <= j < |frags[1..]|
        ensures Disjoint(f, frags[1..][j])
      {
        assert Disjoint(frags[0], frags[j + 1]);
      }
      OverlayLeaves(next, frags[1..], f, at);
    }
  }

  /** Fragments that do not overlap `f` leave its bytes alone. */
  lemma {:induction false} OverlayLeaves(raw: seq<byte>, frags: seq<Frag>, f: Frag, at: nat)
    requires Clear(f, frags) && InBounds(frags, |raw|) && f.offset <= at < f.End() && at < |raw|
    ensures Overlay(raw, frags)[at] == raw[at]
    decreases |frags|
  {
    if frags != [] {
      assert Disjoint(f, frags[0]);
      OverlayLeaves(Blit(raw, frags[0].offset, frags[0].data), frags[1..], f, at);
    }
  }

  lemma {:induction false} InsertInBounds(f: Frag, s: seq<Frag>, total: nat)
    ensures InBounds(Insert(f, s), total) <==> f.offset <= total && InBounds(s, total)
  {
    if s == [] || f.offset <= s[0].offset {
      assert ([f] + s)[0] == f && ([f] + s)[1..] == s;
      InBoundsStep([f] + s, total);
    } else {
      InsertInBounds(f, s[1..], total);
      var r := Insert(f, s[1..]);
      assert ([s[0]] + r)[0] == s[0] && ([s[0]] + r)[1..] == r;
      InBoundsStep([s[0]] + r, total);
      InBoundsStep(s, total);
    }
  }

  lemma InBoundsStep(s: seq<Frag>, total: nat)
    requires s != []
    ensures InBounds(s, total) <==> s[0].offset <= total && InBounds(s[1..], total)
  {
    assert InBounds(s[1..], total) ==> forall i :: 0 < i < |s| ==> s[i] == s[1..][i - 1];
  }

  lemma {:induction false} SortInBounds(s: seq<Frag>, total: nat)
    ensures InBounds(Sort(s), total) <==> InBounds(s, total)
  {
    if s != [] {
      SortInBounds(s[1..], total);
      InsertInBounds(s[0], Sort(s[1..]), total);
      InBoundsStep(s, total);
    }
  }

  /**
   A complete set can be assembled exactly when every fragment starts within the datagram: completeness
   stops looking at the end and says nothing about fragments beyond it.
   */
  lemma AssemblesIff(s: FragSet, hdr: seq<byte>, data: seq<byte>, off: nat, more: bool)
    requires SetOk(s) && |hdr| >= MIN_HEADER
    ensures var v := Feed(s, hdr, data, off, more);
            v.Finish? || v.OutOfRange? ==>
              var total := if more then s.totalLen else off + |data|;
              total >= 0 && (v.Finish? <==> InBounds(s.fragments + [Frag(off, data)], total))
  {
    hide Sort, ClashWith, Tiling, InBounds, Assemble;
    var total := if more then s.totalLen else off + |data|;
    if total >= 0 {
      SortInBounds(s.fragments + [Frag(off, data)], total);
    }
  }

  lemma SizeOfTwo(a: Frag, b: Frag)
    ensures Size([a, b]) == |a.data| + |b.data|
  {
    SizeAppend([a], b);
    SizeAppend([], a);
    assert [a] + [b] == [a, b] && [] + [a] == [a];
  }

  lemma SortCons(f: Frag, s: seq<Frag>)
    ensures Sort([f] + s) == Insert(f, Sort(s))
  {
    assert ([f] + s)[1..] == s;
  }

  lemma InsertFront(f: Frag, s: seq<Frag>)
    requires s != [] ==> f.offset <= s[0].offset
    ensures Insert(f, s) == [f] + s
  {
  }

  lemma InsertBehind(f: Frag, g: Frag, s: seq<Frag>)
    requires g.offset < f.offset
    ensures Insert(f, [g] + s) == [g] + Insert(f, s)
  {
    assert ([g] + s)[1..] == s;
  }

  lemma SortOfThree(a: Frag, b: Frag, f: Frag)
    requires a.offset < f.offset < b.offset
    ensures Sort([a, b, f]) == [a, f, b]
  {
    hide Sort, Insert;
    var last, two, rest := [f], [b, f], [f, b];
    SortOne(f);
    SortCons(b, last);
    assert two == [b] + last && Sort(two) == Insert(b, last);
    InsertBehind(b, f, []);
    InsertFront(b, []);
    assert last == [f] + [] && rest == [f] + ([b] + []);
    assert Sort(two) == rest;
    SortCons(a, two);
    InsertFront(a, rest);
    assert [a, b, f] == [a] + two && [a, f, b] == [a] + rest;
  }

  lemma SortOne(f: Frag)
    ensures Sort([f]) == [f]
  {
    assert [f][1..] == [];
  }

  lemma TilingStep(f: Frag, s: seq<Frag>, next: nat, total: int)
    requires f.offset == next
    ensures f.End() == total ==> Tiling([f] + s, next, total)
    ensures f.End() < total ==> (Tiling([f] + s, next, total) <==> Tiling(s, f.End(), total))
  {
    assert ([f] + s)[1..] == s;
  }

  lemma TwoAreFree(a: Frag, b: Frag, f: Frag)
    requires Disjoint(f, a) && Disjoint(f, b)
    ensures ClashWith([a, b], f.offset, f.End()) == Free
  {
    FreeMeansClear([a, b], f);
  }

  /** A last fragment that ends before an earlier one starts completes a set that cannot be assembled. */
  lemma BeyondTheEnd(hdr: seq<byte>, d: seq<byte>)
    requires |hdr| >= MIN_HEADER && |d| == 8
    ensures var s := FragSet(0, hdr, [Frag(0, d), Frag(24, d)], -1, 16);
            SetOk(s) && Feed(s, hdr, d, 8, false).OutOfRange?
  {
    hide Sort, Tiling, ClashWith, Size, Assemble, InBounds;
    var a, b, f := Frag(0, d), Frag(24, d), Frag(8, d);
    SizeOfTwo(a, b);
    TwoAreFree(a, b, f);
    assert [a, b] + [f] == [a, b, f];
    SortOfThree(a, b, f);
    assert [a, f, b] == [a] + [f, b] && [f, b] == [f] + [b];
    TilingStep(a, [f, b], 0, 16);
    TilingStep(f, [b], 8, 16);
    StartsBeyond([a, f, b], 2, 16);
  }

  lemma StartsBeyond(s: seq<Frag>, i: nat, total: nat)
    requires i < |s| && s[i].offset > total
    ensures !InBounds(s, total)
  {
  }

  /** When a complete set is assembled no byte is left over: each comes from the fragment that covers it. */
  lemma EveryByteFromAFragment(s: FragSet, x: nat)
    requires SetOk(s) && x < s.totalLen && InBounds(s.fragments, s.totalLen) && Tiling(Sort(s.fragments), 0, s.totalLen)
    ensures InBounds(Sort(s.fragments), s.totalLen)
    ensures exists f :: f in s.fragments && f.offset <= x < f.End() &&
              Overlay(Zeros(s.totalLen), Sort(s.fragments))[x] == f.data[x - f.offset]
  {
    hide Sort, Tiling, Apart, Overlay, InBounds, Zeros, Arrived, ByOffset;
    SortInBounds(s.fragments, s.totalLen);
    CompleteIff(s);
    SortMembers(s.fragments);
    SortApart(s.fragments);
    assert Arrived(s.fragments, x);
    SameArrived(Sort(s.fragments), s.fragments, x);
    var f := ByteFrom(Sort(s.fragments), s.totalLen, x);
  }

  lemma ByteFrom(sorted: seq<Frag>, total: nat, x: nat) returns (f: Frag)
    requires Apart(sorted) && InBounds(sorted, total) && Arrived(sorted, x) && x < total
    ensures f in sorted && f.offset <= x < f.End() && Overlay(Zeros(total), sorted)[x] == f.data[x - f.offset]
  {
    hide Apart, Overlay, InBounds, Zeros;
    f :| f in sorted && f.offset <= x < f.End();
    var i :| 0 <= i < |sorted| && sorted[i] == f;
    OverlayHolds(Zeros(total), sorted, i, x - f.offset);
  }

  // ----- The table -----

  /** The buffered bytes of all sets together. */
  ghost function TotalMem(sets: Sets): nat {
    if sets == map[] then 0
    else
      var k :| k in sets;
      sets[k].mem + TotalMem(sets - {k})
  }

  lemma {:induction false} TotalMemRemove(sets: Sets, k: Key)
    requires k in sets
    ensures TotalMem(sets) == sets[k].mem + TotalMem(sets - {k})
    decreases |sets|
  {
    var c :| c in sets && TotalMem(sets) == sets[c].mem + TotalMem(sets - {c});
    if c != k {
      TotalMemRemove(sets - {c}, k);
      TotalMemRemove(sets - {k}, c);
      assert sets - {c} - {k} == sets - {k} - {c};
    }
  }

  lemma TotalMemPut(sets: Sets, k: Key, s: FragSet)
    ensures TotalMem(sets[k := s]) == TotalMem(sets - {k}) + s.mem
  {
    TotalMemRemove(sets[k := s], k);
    assert sets[k := s] - {k} == sets - {k};
  }

  lemma EmptyTable(sets: Sets)
    ensures sets == map[] ==> TotalMem(sets) == 0
  {
  }

  /** The set a fragment goes to: the one of its key, or a new one. */
  function SetFor(sets: Sets, key: Key, now: int): (s: FragSet)
  {
    if key in sets then sets[key] else FragSet(now, [], [], -1, 0)
  }

  ghost predicate AllOk(sets: Sets) {
    forall k :: k in sets ==> SetOk(sets[k])
  }

  /** The table and the answer after one fragment, when nothing has to be evicted. */
  ghost function Absorb(sets: Sets, hdr: seq<byte>, data: seq<byte>, now: int): (Sets, Outcome)
    requires |hdr| >= MIN_HEADER && AllOk(sets)
  {
    var key := KeyOf(hdr);
    if !Accepted(hdr, data) then (sets, Nothing)
    else
      match Feed(SetFor(sets, key, now), hdr, data, FragmentOffset(hdr) * 8, More(hdr))
      case Same => (sets, Nothing)
      case Discard => (sets - {key}, Nothing)
      case Keep(kept) => (sets[key := kept], Nothing)
      case Finish(pkt) => (sets - {key}, Complete(pkt))
      case OutOfRange(kept) => (sets[key := kept], Fault)
  }

  predicate Expired(s: FragSet, now: int, timeout: int) {
    now - s.createdAt > timeout
  }

  /** The sets that have not timed out. */
  ghost function Unexpired(sets: Sets, now: int, timeout: int): Sets {
    map k | k in sets && !Expired(sets[k], now, timeout) :: sets[k]
  }

  /**
   What trimming leaves: only whole sets go, oldest first, none unless the table is over the
   threshold, and no more than it takes to get back to it.
   */
  ghost predicate Trimmed(sets: Sets, left: Sets) {
    && left.Keys <= sets.Keys && (forall k :: k in left ==> left[k] == sets[k])
    && TotalMem(left) <= HIGH_THRESHOLD
    && (forall k, j :: k in left && j in sets && j !in left ==> sets[j].createdAt <= left[k].createdAt)
    && (left == sets || exists last :: last in sets && last !in left && TotalMem(left) + sets[last].mem > HIGH_THRESHOLD)
  }

  /** Entering a new set changes neither the count nor the order. */
  lemma NewSet(sets: Sets, key: Key, now: int)
    requires AllOk(sets)
    ensures var s := SetFor(sets, key, now);
            SetOk(s) && AllOk(sets[key := s]) && TotalMem(sets[key := s]) == TotalMem(sets)
    ensures var s := SetFor(sets, key, now);
            (key in sets ==> sets[key := s] == sets) && sets[key := s] - {key} == sets - {key}
  {
    hide TotalMem;
    if key !in sets {
      TotalMemPut(sets, key, SetFor(sets, key, now));
      assert sets - {key} == sets;
    } else {
      assert sets[key := sets[key]] == sets;
    }
  }

  lemma NothingTrimmed(sets: Sets)
    requires TotalMem(sets) <= HIGH_THRESHOLD
    ensures Trimmed(sets, sets)
  {
  }

  lemma FeedClash(s: FragSet, hdr: seq<byte>, data: seq<byte>, off: nat, more: bool)
    requires |hdr| >= MIN_HEADER && SetOk(s)
    ensures var c, v := ClashWith(s.fragments, off, off + |data|), Feed(s, hdr, data, off, more);
            && (c == Duplicate <==> v == Same) && (c == Conflict ==> v == Discard)
            && (s.fragments == [] ==> c == Free)
  {
    hide Sort, Tiling, InBounds, Assemble, Apart;
  }

  lemma {:induction false} TotalMemSubset(part: Sets, sets: Sets)
    requires part.Keys <= sets.Keys && forall k :: k in part ==> part[k] == sets[k]
    ensures TotalMem(part) <= TotalMem(sets)
    decreases |part|
  {
    if part != map[] {
      var k :| k in part;
      TotalMemRemove(part, k);
      TotalMemRemove(sets, k);
      TotalMemSubset(part - {k}, sets - {k});
    }
  }

  /** Within the bound nothing is trimmed. */
  lemma TrimmedWithin(sets: Sets, left: Sets)
    requires Trimmed(sets, left) && TotalMem(sets) <= HIGH_THRESHOLD
    ensures left == sets
  {
    hide TotalMem;
    if left != sets {
      var last :| last in sets && last !in left && TotalMem(left) + sets[last].mem > HIGH_THRESHOLD;
      TotalMemRemove(sets, last);
      TotalMemSubset(left, sets - {last});
    }
  }

  class Reassembler {
    var sets: Sets
    var mem: int
    const timeout: int

    /** The byte count is right and every set is in order. */
    ghost predicate Counted()
      reads this
    {
      mem == TotalMem(sets) && AllOk(sets)
    }

    /** The state between calls: also within the memory bound. */
    ghost predicate Valid()
      reads this
    {
      Counted() && mem <= HIGH_THRESHOLD
    }

    constructor (timeout: int)
      ensures Valid() && sets == map[] && this.timeout == timeout
    {
      sets, mem := map[], 0;
      this.timeout := timeout;
    }

    /** The clamp at zero never fires: the count goes down by exactly what the set held. */
    method ReleaseSet(key: Key)
      requires Counted() && key in sets
      modifies this
      ensures Counted() && sets == old(sets) - {key} && mem == old(mem) - old(sets[key].mem)
    {
      TotalMemRemove(sets, key);
      mem := mem - sets[key].mem;
      sets := sets - {key};
      if mem < 0 {
        mem := 0;
      }
    }

    method EvictExpired(now: int)
      requires Counted()
      modifies this
      ensures Counted() && sets == Unexpired(old(sets), now, timeout) && mem <= old(mem)
    {
      hide Expired, TotalMem, AllOk;
      var keys := sets.Keys;
      while keys != {}
        invariant Counted() && mem <= old(mem)
        invariant keys <= sets.Keys <= old(sets).Keys
        invariant forall k :: k in sets ==> sets[k] == old(sets)[k] && (k in keys || !Expired(old(sets)[k], now, timeout))
        invariant forall k :: k in old(sets) && !Expired(old(sets)[k], now, timeout) ==> k in sets
        decreases |keys|
      {
        var k :| k in keys;
        keys := keys - {k};
        if Expired(sets[k], now, timeout) {
          ReleaseSet(k);
        }
      }
    }

    /** The search for the oldest set. */
    method Oldest() returns (oldest: Key)
      requires sets != map[]
      ensures oldest in sets && forall k :: k in sets ==> sets[oldest].createdAt <= sets[k].createdAt
    {
      oldest :| oldest in sets;
      var keys := sets.Keys;
      while keys != {}
        invariant oldest in sets && keys <= sets.Keys
        invariant forall k :: k in sets && k !in keys ==> sets[oldest].createdAt <= sets[k].createdAt
        decreases |keys|
      {
        var k :| k in keys;
        keys := keys - {k};
        if sets[k].createdAt < sets[oldest].createdAt {
          oldest := k;
        }
      }
    }

    /** The low threshold is never what stops the loop: its guard already has. */
    method TrimMemory()
      requires Counted()
      modifies this
      ensures Valid() && Trimmed(old(sets), sets)
    {
      hide TotalMem, AllOk;
      while mem > HIGH_THRESHOLD
        invariant Counted() && sets.Keys <= old(sets).Keys && forall k :: k in sets ==> sets[k] == old(sets)[k]
        invariant forall k, j :: k in sets && j in old(sets) && j !in sets ==> old(sets)[j].createdAt <= sets[k].createdAt
        invariant sets == old(sets) ||
                  exists last :: last in old(sets) && last !in sets && mem + old(sets)[last].mem > HIGH_THRESHOLD
        decreases |sets|
      {
        EmptyTable(sets);
        if sets == map[] {
          return;
        }
        var oldest := Oldest();
        ReleaseSet(oldest);
        if mem <= LOW_THRESHOLD {
          return;
        }
      }
    }

    /** The part of `process` that runs once the fragment is known to be free of clashes. */
    method Store(key: Key, set0: FragSet, hdr: seq<byte>, data: seq<byte>) returns (out: Outcome, stored: bool)
      requires Counted() && |hdr| >= MIN_HEADER && |data| > 0 && key in sets && sets[key] == set0
      requires ClashWith(set0.fragments, FragmentOffset(hdr) * 8, FragmentOffset(hdr) * 8 + |data|) == Free
      modifies this
      ensures Counted()
      ensures match Feed(set0, hdr, data, FragmentOffset(hdr) * 8, More(hdr))
              case Discard => sets == old(sets) - {key} && out == Nothing && !stored && mem <= old(mem)
              case Finish(pkt) => sets == old(sets) - {key} && out == Complete(pkt) && !stored && mem <= old(mem)
              case Keep(kept) => sets == old(sets)[key := kept] && out == Nothing && stored
              case OutOfRange(kept) => sets == old(sets)[key := kept] && out == Fault && !stored
              case Same => false
    {
      hide Sort, ClashWith, Tiling, InBounds, Stamp, TotalMem, SetOk, Overlay;
      var offset := FragmentOffset(hdr) * 8;
      var end := offset + |data|;
      HeaderOk(set0);
      var header := if offset == 0 then hdr else set0.header;
      var totalLen := set0.totalLen;
      if !More(hdr) {
        if totalLen >= 0 && totalLen != end {
          ReleaseSet(key);
          return Nothing, false;
        }
        totalLen := end;
      }
      var frags := set0.fragments + [Frag(offset, data)];
      var check := totalLen >= 0 && header != [];
      if check {
        frags := Sort(frags);
      }
      var kept := FragSet(set0.createdAt, header, frags, totalLen, set0.mem + |data|);
      StoreOk(set0, Frag(offset, data), kept);
      TotalMemRemove(sets, key);
      TotalMemPut(sets, key, kept);
      sets := sets[key := kept];
      mem := mem + |data|;
      if check {
        var done := Reassemble.Complete(frags, totalLen);
        if done {
          if !InBounds(frags, totalLen) {
            return Fault, false;
          }
          var payload := CopyAll(frags, totalLen);
          var raw := header + payload;
          ReleaseSet(key);
          return Complete(Stamp(raw, |header|, |raw| % 65536, 0, 0)), false;
        }
      }
      out, stored := Nothing, true;
    }

    /**
     `process`: fragments that are not acceptable change nothing. Otherwise, with expired sets gone,
     the answer and the table are those of `Absorb`, trimmed to the memory bound.
     */
    method Process(hdr: seq<byte>, data: seq<byte>, now: int) returns (out: Outcome)
      requires Valid() && |hdr| >= MIN_HEADER
      modifies this
      ensures Counted() && (out != Fault ==> Valid())
      ensures !Accepted(hdr, data) ==> out == Nothing && sets == old(sets)
      ensures Accepted(hdr, data) ==>
                var live := Unexpired(old(sets), now, timeout);
                && AllOk(live) && out == Absorb(live, hdr, data, now).1
                && (out != Fault ==> Trimmed(Absorb(live, hdr, data, now).0, sets))
    {
      hide Feed, ClashWith, TotalMem, SetOk, Trimmed;
      if |data| == 0 {
        return Nothing;
      }
      var offset := FragmentOffset(hdr) * 8;
      if offset + |data| > MAX_PAYLOAD {
        return Nothing;
      }
      if More(hdr) && |data| % 8 != 0 {
        return Nothing;
      }
      var key := KeyOf(hdr);
      EvictExpired(now);
      ghost var live := sets;
      var set0 := SetFor(sets, key, now);
      NewSet(live, key, now);
      HeaderOk(set0);
      sets := sets[key := set0];
      var clash := CheckClash(set0.fragments, offset, offset + |data|);
      FeedClash(set0, hdr, data, offset, More(hdr));
      match clash
      case Duplicate =>
        out := Nothing;
        NothingTrimmed(sets);
      case Conflict =>
        ReleaseSet(key);
        out := Nothing;
        NothingTrimmed(sets);
      case Free =>
        var stored;
        out, stored := Store(key, set0, hdr, data);
        if stored {
          ghost var kept := Feed(set0, hdr, data, offset, More(hdr)).kept;
          assert live[key := set0][key := kept] == live[key := kept];
          TrimMemory();
        } else if out != Fault {
          NothingTrimmed(sets);
        }
    }
  }
}
