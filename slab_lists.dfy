/**
 The intrusive doubly-linked lists threaded through slab headers. A slab is
 named by its base address; `Headers` maps each base the cache owns to the
 slabStruct stored at it. A list is a head pointer plus the header links;
 its ghost view is the sequence of slabs met walking `next` from the head.
 The functions below are the header updates performed by the list
 primitives of the cache, and the lemmas say that they keep lists well formed.

 Some lemmas here (RefcntsUpdate, RefcntAt, ElementsOfPush, RefcntKeys,
 DropInTurn, NoListsWellFormed and the like) state one-line map, set or
 sequence facts that the verifier could find unaided. They are not
 properties of the allocator: they exist so that callers name the fact
 they need instead of leaving the verifier to search for it, which keeps
 verification cheap.
 */
module SlabLists {

  datatype Option<T> = None | Some(value: T)

  /** slabStruct: the links of the list holding the slab, and its count of live objects. */
  datatype SlabHeader = SlabHeader(previous: Option<nat>, next: Option<nat>, refcnt: nat)

  type Headers = map<nat, SlabHeader>

  /** The head pointer of a list whose walk is s. */
  function First(s: seq<nat>): (h: Option<nat>)
    ensures h == None <==> s == []
    ensures s != [] ==> h == Some(s[0])
  {
    if s == [] then None else Some(s[0])
  }

  ghost predicate Distinct(s: seq<nat>)
  {
    forall i, j :: 0 <= i < j < |s| ==> At(s, i) != At(s, j)
  }

  /**
   s[i] under a name of its own: the quantifier in Distinct fires only on
   the positions a proof names with At, not on every index of every list.
   */
  function At(s: seq<nat>, i: nat): nat
    requires i < |s|
  {
    s[i]
  }

  /** In a list without repetitions, any two positions hold different slabs. */
  lemma DistinctIndices(s: seq<nat>)
    requires Distinct(s)
    ensures forall i, j :: 0 <= i < |s| && 0 <= j < |s| && i != j ==> s[i] != s[j]
  {
    forall i, j | 0 <= i < |s| && 0 <= j < |s| && i != j
      ensures s[i] != s[j]
    {
      if i < j {
        assert At(s, i) != At(s, j);
      } else {
        assert At(s, j) != At(s, i);
      }
    }
  }

  /** The tail of a list without repetitions has none, and does not hold the head. */
  lemma DistinctTail(s: seq<nat>)
    requires Distinct(s) && s != []
    ensures Distinct(s[1..]) && s[0] !in s[1..]
  {
    DistinctIndices(s);
    var t := s[1..];
    forall i, j | 0 <= i < j < |t|
      ensures At(t, i) != At(t, j)
    {
      assert t[i] == s[i + 1] && t[j] == s[j + 1];
    }
    forall j | 0 <= j < |t|
      ensures t[j] != s[0]
    {
      assert t[j] == s[j + 1];
    }
  }

  /** The slabs on s, as a set. */
  ghost function Elements(s: seq<nat>): set<nat>
  {
    set x | x in s
  }

  /** The slab after position i of s, or null at the end. */
  function Successor(s: seq<nat>, i: nat): Option<nat>
    requires i < |s|
  {
    if i + 1 < |s| then Some(s[i + 1]) else None
  }

  /** The slab before position i of s, or null at the start. */
  function Predecessor(s: seq<nat>, i: nat): Option<nat>
    requires i < |s|
  {
    if i == 0 then None else Some(s[i - 1])
  }

  /** Walking `next` from head visits exactly s and then meets null. */
  ghost predicate ForwardLinked(hs: Headers, head: Option<nat>, s: seq<nat>)
  {
    && head == First(s)
    && (forall i :: 0 <= i < |s| ==> s[i] in hs)
    && (forall i {:trigger hs[s[i]]} :: 0 <= i < |s| ==> hs[s[i]].next == Successor(s, i))
  }

  /** A well-formed doubly-linked list: forward links, back links, no repeated slab. */
  ghost predicate IsList(hs: Headers, head: Option<nat>, s: seq<nat>)
  {
    && ForwardLinked(hs, head, s)
    && Distinct(s)
    && (forall i {:trigger hs[s[i]]} :: 0 <= i < |s| ==> hs[s[i]].previous == Predecessor(s, i))
  }

  /** No slab is on both s and t. */
  ghost predicate Disjoint(s: seq<nat>, t: seq<nat>)
  {
    forall i, j :: 0 <= i < |s| && 0 <= j < |t| ==> At(s, i) != At(t, j)
  }

  /** Disjointness in terms of membership, both ways round. */
  lemma DisjointMembers(s: seq<nat>, t: seq<nat>)
    requires Disjoint(s, t)
    ensures forall b :: b in s ==> b !in t
    ensures forall b :: b in t ==> b !in s
    ensures Disjoint(t, s)
  {
    forall i, j | 0 <= i < |s| && 0 <= j < |t|
      ensures s[i] != t[j]
    {
      assert At(s, i) != At(t, j);
    }
    MembersDisjoint(t, s);
  }

  /** Sequences with no common member are disjoint. */
  lemma MembersDisjoint(s: seq<nat>, t: seq<nat>)
    requires forall b :: b in s ==> b !in t
    ensures Disjoint(s, t)
  {
    forall i, j | 0 <= i < |s| && 0 <= j < |t|
      ensures At(s, i) != At(t, j)
    {
      assert s[i] in s;
    }
  }

  /** Sequences whose members come from disjoint sequences are disjoint. */
  lemma DisjointSubset(s: seq<nat>, t: seq<nat>, s': seq<nat>, t': seq<nat>)
    requires Disjoint(s, t)
    requires forall b :: b in s' ==> b in s
    requires forall b :: b in t' ==> b in t
    ensures Disjoint(s', t')
  {
    DisjointMembers(s, t);
    MembersDisjoint(s', t');
  }

  /** Pushing a slab that is not on t in front of a list disjoint from t keeps the two disjoint. */
  lemma DisjointPush(x: nat, s: seq<nat>, t: seq<nat>)
    requires Disjoint(s, t) && x !in t
    ensures Disjoint([x] + s, t) && Disjoint(t, [x] + s)
  {
    DisjointMembers(s, t);
    MembersDisjoint([x] + s, t);
    DisjointMembers([x] + s, t);
  }

  /** Two header maps agree on the links of every slab of s. */
  ghost predicate SameLinks(hs: Headers, hs': Headers, s: seq<nat>)
  {
    forall y :: y in s ==> y in hs && y in hs' && hs'[y].previous == hs[y].previous && hs'[y].next == hs[y].next
  }

  /** s with every occurrence of x taken out, the rest in the same order. */
  function Without(s: seq<nat>, x: nat): (r: seq<nat>)
    ensures forall y :: y in r <==> y in s && y != x
  {
    if s == [] then []
    else if s[0] == x then Without(s[1..], x)
    else [s[0]] + Without(s[1..], x)
  }

  /** The header updates of insert_in_*_list: x becomes the new head in front of head. */
  function LinkAtHead(hs: Headers, x: nat, head: Option<nat>): (hs': Headers)
    requires x in hs
    ensures hs'.Keys == hs.Keys
    ensures head != Some(x) ==> hs'[x] == SlabHeader(None, head, hs[x].refcnt)
    ensures head.Some? && head.value in hs ==> hs'[head.value].previous == Some(x)
    ensures head.Some? && head.value in hs && head.value != x ==> hs'[head.value] == hs[head.value].(previous := Some(x))
    ensures forall y :: y in hs && y != x && head != Some(y) ==> hs'[y] == hs[y]
  {
    var hs1 := hs[x := hs[x].(next := head, previous := None)];
    if head.Some? && head.value in hs1 then hs1[head.value := hs1[head.value].(previous := Some(x))] else hs1
  }

  /** The header update of popping the head: the new head's `previous` becomes null. */
  function ClearPrevious(hs: Headers, head: Option<nat>): (hs': Headers)
    requires head.Some? ==> head.value in hs
    ensures hs'.Keys == hs.Keys
    ensures head.Some? ==> hs'[head.value] == hs[head.value].(previous := None)
    ensures forall y :: y in hs && head != Some(y) ==> hs'[y] == hs[y]
  {
    if head.Some? then hs[head.value := hs[head.value].(previous := None)] else hs
  }

  /** The header updates of remove_from_empty_list: bridge the neighbours of x, then null its links. */
  function Unlink(hs: Headers, x: nat): (hs': Headers)
    requires x in hs
    ensures hs'.Keys == hs.Keys
    ensures hs'[x].previous == None && hs'[x].next == None
  {
    var h := hs[x];
    var hs1 := if h.previous.Some? && h.previous.value in hs then hs[h.previous.value := hs[h.previous.value].(next := h.next)] else hs;
    var hs2 := if h.next.Some? && h.next.value in hs1 then hs1[h.next.value := hs1[h.next.value].(previous := h.previous)] else hs1;
    hs2[x := hs2[x].(previous := None, next := None)]
  }

  /** Unlink, written as the three successive header writes of remove_from_empty_list. */
  lemma UnlinkInSteps(hs: Headers, x: nat, hs1: Headers, hs2: Headers, hs3: Headers)
    requires x in hs
    requires hs[x].previous.Some? ==> hs[x].previous.value in hs && hs[x].previous.value != x
    requires hs[x].next.Some? ==> hs[x].next.value in hs && hs[x].next.value != x
    requires hs1 == if hs[x].previous.Some? then hs[hs[x].previous.value := hs[hs[x].previous.value].(next := hs[x].next)] else hs
    requires hs2 == if hs[x].next.Some? then hs1[hs[x].next.value := hs1[hs[x].next.value].(previous := hs[x].previous)] else hs1
    requires x in hs2 && hs3 == hs2[x := hs2[x].(previous := None, next := None)]
    ensures hs3 == Unlink(hs, x)
  {
  }

  /** A list stays well formed in any header map that keeps the links of its slabs. */
  lemma ListFrame(hs: Headers, hs': Headers, head: Option<nat>, s: seq<nat>)
    requires IsList(hs, head, s)
    requires SameLinks(hs, hs', s)
    ensures IsList(hs', head, s)
  {
    assert forall i :: 0 <= i < |s| ==> s[i] in s;
  }

  /** Pushing a slab that is on no list in front of a well-formed list gives a well-formed list. */
  lemma PushKeepsList(hs: Headers, s: seq<nat>, x: nat)
    requires IsList(hs, First(s), s)
    requires x in hs && x !in s
    ensures IsList(LinkAtHead(hs, x, First(s)), Some(x), [x] + s)
  {
    var hs' := LinkAtHead(hs, x, First(s));
    var t := [x] + s;
    forall i | 0 <= i < |t|
      ensures t[i] in hs'
      ensures hs'[t[i]].next == Successor(t, i)
      ensures hs'[t[i]].previous == Predecessor(t, i)
    {
      if i > 0 {
        assert t[i] == s[i - 1];
      }
    }
    DistinctIndices(s);
    forall i, j | 0 <= i < j < |t|
      ensures At(t, i) != At(t, j)
    {
      assert t[j] == s[j - 1];
      if i > 0 {
        assert t[i] == s[i - 1];
      }
    }
  }

  /** The refcnt of every slab, by base. */
  ghost function Refcnts(hs: Headers): map<nat, nat>
  {
    map b | b in hs :: hs[b].refcnt
  }

  /** Two header maps with the same slabs and the same refcnts have the same refcnt map. */
  lemma RefcntsFrom(hs: Headers, hs': Headers)
    requires hs'.Keys == hs.Keys
    requires forall y :: y in hs ==> hs'[y].refcnt == hs[y].refcnt
    ensures Refcnts(hs') == Refcnts(hs)
  {
  }

  /** Writing one header sets that slab's refcnt and keeps the others. */
  lemma RefcntsUpdate(hs: Headers, x: nat, h: SlabHeader)
    ensures Refcnts(hs[x := h]) == Refcnts(hs)[x := h.refcnt]
  {
  }

  /** The refcnt map holds each slab's refcnt. */
  lemma RefcntAt(hs: Headers, x: nat)
    requires x in hs
    ensures x in Refcnts(hs) && Refcnts(hs)[x] == hs[x].refcnt
  {
  }

  /** The refcnt map rc is rc0 with the entry of slab x moved by delta and every other entry kept. */
  ghost predicate Adjusted(rc0: map<nat, nat>, rc: map<nat, nat>, x: nat, delta: int)
  {
    && x in rc0 && rc0[x] + delta >= 0
    && rc == rc0[x := rc0[x] + delta]
  }

  /** Changing one slab's refcnt by delta changes that entry of the refcnt map and no other. */
  lemma RefcntsAdd(hs: Headers, x: nat, h: SlabHeader, delta: int)
    requires x in hs && h.refcnt == hs[x].refcnt + delta
    ensures x in Refcnts(hs) && Refcnts(hs)[x] == hs[x].refcnt
    ensures Adjusted(Refcnts(hs), Refcnts(hs[x := h]), x, delta)
  {
    RefcntsUpdate(hs, x, h);
  }

  /** Linking x at the head changes no refcnt. */
  lemma LinkAtHeadFrame(hs: Headers, x: nat, head: Option<nat>)
    requires x in hs
    ensures Refcnts(LinkAtHead(hs, x, head)) == Refcnts(hs)
  {
    RefcntsFrom(hs, LinkAtHead(hs, x, head));
  }

  /** Pushing onto one list leaves a list disjoint from it, and not holding the slab, intact. */
  lemma PushKeepsOther(hs: Headers, s: seq<nat>, x: nat, head: Option<nat>, t: seq<nat>)
    requires IsList(hs, First(s), s) && IsList(hs, head, t)
    requires x in hs && x !in s && x !in t && Disjoint(s, t)
    ensures IsList(LinkAtHead(hs, x, First(s)), head, t)
  {
    DisjointMembers(s, t);
    ListFrame(hs, LinkAtHead(hs, x, First(s)), head, t);
  }

  /** Popping the head of a well-formed list leaves the rest well formed. */
  lemma PopKeepsList(hs: Headers, s: seq<nat>)
    requires IsList(hs, First(s), s)
    requires s != []
    ensures hs[s[0]].next == First(s[1..])
    ensures IsList(ClearPrevious(hs, First(s[1..])), First(s[1..]), s[1..])
    ensures ClearPrevious(hs, First(s[1..])).Keys == hs.Keys
    ensures forall y :: y in hs ==> ClearPrevious(hs, First(s[1..]))[y].refcnt == hs[y].refcnt
    ensures forall y :: y in hs && (|s| < 2 || y != s[1]) ==> ClearPrevious(hs, First(s[1..]))[y] == hs[y]
  {
    var hs' := ClearPrevious(hs, First(s[1..]));
    var t := s[1..];
    DistinctTail(s);
    forall i | 0 <= i < |t|
      ensures t[i] in hs'
      ensures hs'[t[i]].next == Successor(t, i)
      ensures hs'[t[i]].previous == Predecessor(t, i)
    {
      assert t[i] == s[i + 1];
    }
  }

  /** The slab x unlinked from position k of s, its neighbours bridged, nothing else touched. */
  ghost predicate UnlinkedAt(hs: Headers, hs': Headers, s: seq<nat>, k: nat)
    requires k < |s|
    requires forall i :: 0 <= i < |s| ==> s[i] in hs
  {
    && hs'.Keys == hs.Keys
    && (forall y :: y in hs ==> hs'[y].refcnt == hs[y].refcnt)
    && hs'[s[k]].previous == None && hs'[s[k]].next == None
    && (k > 0 ==> hs'[s[k - 1]].next == Successor(s, k) && hs'[s[k - 1]].previous == hs[s[k - 1]].previous)
    && (k + 1 < |s| ==> hs'[s[k + 1]].previous == hs[s[k]].previous && hs'[s[k + 1]].next == hs[s[k + 1]].next)
    && (forall y :: y in hs && y != s[k] && (k == 0 || y != s[k - 1]) && (k + 1 >= |s| || y != s[k + 1]) ==> hs'[y] == hs[y])
  }

  /** The links of the k-th slab of a well-formed list name its neighbours, which are other slabs. */
  lemma ListNeighbours(hs: Headers, s: seq<nat>, k: nat)
    requires IsList(hs, First(s), s)
    requires k < |s|
    ensures hs[s[k]].previous == Predecessor(s, k)
    ensures hs[s[k]].next == Successor(s, k)
    ensures k > 0 ==> s[k - 1] in hs && s[k - 1] != s[k]
    ensures k + 1 < |s| ==> s[k + 1] in hs && s[k + 1] != s[k]
    ensures k > 0 && k + 1 < |s| ==> s[k - 1] != s[k + 1]
  {
    DistinctIndices(s);
    assert hs[s[k]].previous == Predecessor(s, k);
  }

  /** What remove_from_empty_list's header updates do to a slab and its two neighbours. */
  lemma UnlinkFrame(hs: Headers, x: nat)
    requires x in hs
    requires hs[x].previous.Some? ==> hs[x].previous.value in hs && hs[x].previous.value != x
    requires hs[x].next.Some? ==> hs[x].next.value in hs && hs[x].next.value != x
    requires hs[x].previous.Some? && hs[x].next.Some? ==> hs[x].previous.value != hs[x].next.value
    ensures Unlink(hs, x).Keys == hs.Keys
    ensures forall y :: y in hs ==> Unlink(hs, x)[y].refcnt == hs[y].refcnt
    ensures Unlink(hs, x)[x].previous == None && Unlink(hs, x)[x].next == None
    ensures hs[x].previous.Some? ==> Unlink(hs, x)[hs[x].previous.value] == hs[hs[x].previous.value].(next := hs[x].next)
    ensures hs[x].next.Some? ==> Unlink(hs, x)[hs[x].next.value] == hs[hs[x].next.value].(previous := hs[x].previous)
    ensures forall y :: y in hs && y != x && hs[x].previous != Some(y) && hs[x].next != Some(y) ==> Unlink(hs, x)[y] == hs[y]
  {
  }

  /** What remove_from_empty_list's header updates do to the k-th slab of a list and its neighbours. */
  lemma UnlinkEffect(hs: Headers, s: seq<nat>, k: nat)
    requires IsList(hs, First(s), s)
    requires k < |s|
    ensures hs[s[k]].previous == Predecessor(s, k)
    ensures hs[s[k]].next == Successor(s, k)
    ensures UnlinkedAt(hs, Unlink(hs, s[k]), s, k)
  {
    ListNeighbours(hs, s, k);
    UnlinkFrame(hs, s[k]);
  }

  /** After unlinking position k, the forward links walk the remaining slabs. */
  lemma UnlinkKeepsForward(hs: Headers, hs': Headers, s: seq<nat>, k: nat)
    requires IsList(hs, First(s), s)
    requires k < |s|
    requires UnlinkedAt(hs, hs', s, k)
    ensures ForwardLinked(hs', First(s[..k] + s[k + 1..]), s[..k] + s[k + 1..])
  {
    var t := s[..k] + s[k + 1..];
    assert |t| == |s| - 1;
    DistinctIndices(s);
    forall i | 0 <= i < |t|
      ensures t[i] in hs'
      ensures hs'[t[i]].next == Successor(t, i)
    {
      if i < k {
        assert t[i] == s[i];
        if i < k - 1 {
          assert s[i] != s[k] && s[i] != s[k - 1];
          assert k + 1 < |s| ==> s[i] != s[k + 1];
          assert hs[s[i]].next == Successor(s, i);
          assert t[i + 1] == s[i + 1];
        } else if k < |t| {
          assert t[k] == s[k + 1];
        }
      } else {
        assert t[i] == s[i + 1];
        assert hs[s[i + 1]].next == Successor(s, i + 1);
        if i + 1 < |t| {
          assert t[i + 1] == s[i + 2];
        }
        if i > k {
          assert s[i + 1] != s[k] && s[i + 1] != s[k + 1];
          assert k > 0 ==> s[i + 1] != s[k - 1];
        }
      }
    }
  }

  /** After unlinking position k, the back links step through the remaining slabs. */
  lemma UnlinkKeepsBackward(hs: Headers, hs': Headers, s: seq<nat>, k: nat)
    requires IsList(hs, First(s), s)
    requires k < |s|
    requires UnlinkedAt(hs, hs', s, k)
    ensures var t := s[..k] + s[k + 1..];
      forall i :: 0 <= i < |t| ==> hs'[t[i]].previous == Predecessor(t, i)
  {
    var t := s[..k] + s[k + 1..];
    DistinctIndices(s);
    forall i | 0 <= i < |t|
      ensures hs'[t[i]].previous == Predecessor(t, i)
    {
      if i < k {
        assert t[i] == s[i] && s[i] != s[k];
        assert k + 1 < |s| ==> s[i] != s[k + 1];
        if i < k - 1 {
          assert s[i] != s[k - 1];
        }
        if i > 0 {
          assert t[i - 1] == s[i - 1];
          assert hs[s[i]].previous == Predecessor(s, i);
        }
      } else {
        assert t[i] == s[i + 1];
        assert hs[s[i + 1]].previous == Predecessor(s, i + 1);
        if i > k {
          assert s[i + 1] != s[k] && s[i + 1] != s[k + 1];
          assert k > 0 ==> s[i + 1] != s[k - 1];
          assert t[i - 1] == s[i];
        } else if i > 0 {
          assert t[i - 1] == s[k - 1];
          assert hs[s[k]].previous == Predecessor(s, k);
        }
      }
    }
  }

  /** Unlinking from one list leaves a list disjoint from it intact. */
  lemma UnlinkKeepsOther(hs: Headers, s: seq<nat>, k: nat, head: Option<nat>, t: seq<nat>)
    requires IsList(hs, First(s), s) && IsList(hs, head, t)
    requires k < |s|
    requires Disjoint(s, t)
    ensures IsList(Unlink(hs, s[k]), head, t)
  {
    DisjointMembers(s, t);
    UnlinkEffect(hs, s, k);
    var hs' := Unlink(hs, s[k]);
    forall y | y in t
      ensures y in hs && y in hs' && hs'[y].previous == hs[y].previous && hs'[y].next == hs[y].next
    {
      assert y != s[k];
      assert k > 0 ==> y != s[k - 1];
      assert k + 1 < |s| ==> y != s[k + 1];
    }
    ListFrame(hs, hs', head, t);
  }

  /** Unlinking the k-th slab of a well-formed list leaves the others well formed, in order. */
  lemma UnlinkKeepsList(hs: Headers, hs': Headers, s: seq<nat>, k: nat)
    requires IsList(hs, First(s), s)
    requires k < |s|
    requires UnlinkedAt(hs, hs', s, k)
    ensures IsList(hs', First(s[..k] + s[k + 1..]), s[..k] + s[k + 1..])
  {
    var t := s[..k] + s[k + 1..];
    UnlinkKeepsForward(hs, hs', s, k);
    UnlinkKeepsBackward(hs, hs', s, k);
    DistinctWithout(s, k);
  }

  /** Dropping one position of a list without repetitions leaves one without repetitions. */
  lemma DistinctWithout(s: seq<nat>, k: nat)
    requires Distinct(s) && k < |s|
    ensures Distinct(s[..k] + s[k + 1..])
  {
    var t := s[..k] + s[k + 1..];
    DistinctIndices(s);
    forall i, j | 0 <= i < j < |t| ensures At(t, i) != At(t, j) {
      var i' := if i < k then i else i + 1;
      var j' := if j < k then j else j + 1;
      assert t[i] == s[i'] && t[j] == s[j'];
    }
  }

  /**
   Unlinking the k-th slab of s keeps s (without it) and two lists disjoint
   from s well formed; the new head of s is its old head unless the slab was
   first, in which case it is the slab's successor.
   */
  lemma UnlinkKeepsLists(hs: Headers, s: seq<nat>, k: nat, ha: Option<nat>, a: seq<nat>, hb: Option<nat>, b: seq<nat>)
    requires IsList(hs, First(s), s) && IsList(hs, ha, a) && IsList(hs, hb, b)
    requires k < |s|
    requires Disjoint(s, a) && Disjoint(s, b)
    ensures UnlinkedAt(hs, Unlink(hs, s[k]), s, k)
    ensures IsList(Unlink(hs, s[k]), First(s[..k] + s[k + 1..]), s[..k] + s[k + 1..])
    ensures IsList(Unlink(hs, s[k]), ha, a) && IsList(Unlink(hs, s[k]), hb, b)
    ensures Without(s, s[k]) == s[..k] + s[k + 1..]
    ensures Without(a, s[k]) == a && Without(b, s[k]) == b
    ensures First(s[..k] + s[k + 1..]) == if k == 0 then hs[s[k]].next else First(s)
  {
    UnlinkEffect(hs, s, k);
    UnlinkKeepsList(hs, Unlink(hs, s[k]), s, k);
    UnlinkKeepsOther(hs, s, k, ha, a);
    UnlinkKeepsOther(hs, s, k, hb, b);
    DisjointMembers(s, a);
    DisjointMembers(s, b);
    WithoutAt(s, k);
    WithoutAbsent(a, s[k]);
    WithoutAbsent(b, s[k]);
  }

  /** Three well-formed lists over one header map, no slab on two of them. */
  ghost predicate ThreeLists(hs: Headers, h1: Option<nat>, s1: seq<nat>, h2: Option<nat>, s2: seq<nat>,
                             h3: Option<nat>, s3: seq<nat>)
  {
    && IsList(hs, h1, s1) && IsList(hs, h2, s2) && IsList(hs, h3, s3)
    && Disjoint(s1, s2) && Disjoint(s1, s3) && Disjoint(s2, s3)
  }

  /** A list head after x is unlinked: the slab after x if x was the head, else unchanged. */
  function HeadAfterUnlink(hs: Headers, head: Option<nat>, x: nat): (h: Option<nat>)
    requires x in hs
    ensures head == Some(x) ==> h == hs[x].next
    ensures head != Some(x) ==> h == head
  {
    if head == Some(x) then hs[x].next else head
  }

  /** On a well-formed list, the head after unlinking x is the head of the list without x. */
  lemma HeadAfterUnlinkIsFirst(hs: Headers, s: seq<nat>, x: nat)
    requires IsList(hs, First(s), s) && x in hs
    ensures HeadAfterUnlink(hs, First(s), x) == First(Without(s, x))
  {
    if x !in s {
      WithoutAbsent(s, x);
    } else {
      var k :| 0 <= k < |s| && s[k] == x;
      WithoutAt(s, k);
      if k == 0 {
        assert hs[s[0]].next == Successor(s, 0);
      } else {
        DistinctIndices(s);
        assert s[0] != x;
        assert (s[..k] + s[k + 1..])[0] == s[0];
      }
    }
  }

  /**
   A slab of the second or third list has its neighbours in the header map;
   it has no predecessor exactly when it heads its list.
   */
  lemma NeighboursInLists(hs: Headers, h1: Option<nat>, s1: seq<nat>, h2: Option<nat>, s2: seq<nat>,
                          h3: Option<nat>, s3: seq<nat>, x: nat)
    requires ThreeLists(hs, h1, s1, h2, s2, h3, s3)
    requires x in s2 || x in s3
    ensures x in hs
    ensures hs[x].previous.Some? ==> hs[x].previous.value in hs && hs[x].previous.value != x
    ensures hs[x].next.Some? ==> hs[x].next.value in hs && hs[x].next.value != x
    ensures hs[x].previous.None? <==> h2 == Some(x) || h3 == Some(x)
  {
    var inThird := x in s3;
    var s := if inThird then s3 else s2;
    var k :| 0 <= k < |s| && s[k] == x;
    ListNeighbours(hs, s, k);
    DistinctIndices(s);
    assert k > 0 ==> s[0] != x;
  }

  /**
   Unlinking a slab of the second or third list keeps all three well formed:
   the slab leaves its list, whose head moves on if the slab was first.
   */
  lemma UnlinkFromLists(hs: Headers, h1: Option<nat>, s1: seq<nat>, h2: Option<nat>, s2: seq<nat>,
                        h3: Option<nat>, s3: seq<nat>, x: nat)
    requires ThreeLists(hs, h1, s1, h2, s2, h3, s3)
    requires x in s2 || x in s3
    ensures x in hs
    ensures !(h2 == Some(x) && h3 == Some(x))
    ensures Refcnts(Unlink(hs, x)) == Refcnts(hs)
    ensures Unlink(hs, x)[x].previous == None && Unlink(hs, x)[x].next == None
    ensures ThreeLists(Unlink(hs, x), h1, s1, HeadAfterUnlink(hs, h2, x), Without(s2, x),
                       HeadAfterUnlink(hs, h3, x), Without(s3, x))
    ensures x !in s1
  {
    DisjointAfterUnlink(s1, s2, s3, x);
    if x in s3 {
      var k := UnlinkFromOne(hs, s3, h1, s1, h2, s2, x);
    } else {
      var k := UnlinkFromOne(hs, s2, h1, s1, h3, s3, x);
    }
  }

  /**
   Unlinking slab x of list s keeps s without x and two lists disjoint from
   s well formed; the head of s moves on if x was first, the heads of the
   others stay, and x ends with no links.
   */
  lemma UnlinkFromOne(hs: Headers, s: seq<nat>, ha: Option<nat>, a: seq<nat>, hb: Option<nat>, b: seq<nat>, x: nat)
    returns (k: nat)
    requires IsList(hs, First(s), s) && IsList(hs, ha, a) && IsList(hs, hb, b)
    requires Disjoint(s, a) && Disjoint(s, b)
    requires x in s
    ensures x in hs && k < |s| && s[k] == x
    ensures ha != Some(x) && hb != Some(x)
    ensures Refcnts(Unlink(hs, x)) == Refcnts(hs)
    ensures Unlink(hs, x)[x].previous == None && Unlink(hs, x)[x].next == None
    ensures IsList(Unlink(hs, x), HeadAfterUnlink(hs, First(s), x), Without(s, x))
    ensures IsList(Unlink(hs, x), ha, a) && IsList(Unlink(hs, x), hb, b)
    ensures Without(a, x) == a && Without(b, x) == b
  {
    k :| 0 <= k < |s| && s[k] == x;
    ListNeighbours(hs, s, k);
    UnlinkKeepsLists(hs, s, k, ha, a, hb, b);
    HeadAfterUnlinkIsFirst(hs, s, x);
    DisjointMembers(s, a);
    DisjointMembers(s, b);
  }

  /** Three pairwise disjoint lists, each way round, stay so when x is taken out of the last two. */
  lemma DisjointAfterUnlink(s1: seq<nat>, s2: seq<nat>, s3: seq<nat>, x: nat)
    requires Disjoint(s1, s2) && Disjoint(s1, s3) && Disjoint(s2, s3)
    ensures Disjoint(s2, s1) && Disjoint(s3, s1) && Disjoint(s3, s2)
    ensures Disjoint(s1, Without(s2, x)) && Disjoint(s1, Without(s3, x))
    ensures Disjoint(Without(s2, x), Without(s3, x))
    ensures x in s2 ==> x !in s3
    ensures x in s3 ==> x !in s2
    ensures x in s2 || x in s3 ==> x !in s1
  {
    DisjointMembers(s1, s2);
    DisjointMembers(s1, s3);
    DisjointMembers(s2, s3);
    DisjointSubset(s1, s2, s1, Without(s2, x));
    DisjointSubset(s1, s3, s1, Without(s3, x));
    DisjointSubset(s2, s3, Without(s2, x), Without(s3, x));
  }

  /** The three lists stay well formed in any header map that keeps the links of their slabs. */
  lemma ThreeListsFrame(hs: Headers, hs': Headers, h1: Option<nat>, s1: seq<nat>, h2: Option<nat>, s2: seq<nat>,
                        h3: Option<nat>, s3: seq<nat>)
    requires ThreeLists(hs, h1, s1, h2, s2, h3, s3)
    requires SameLinks(hs, hs', s1) && SameLinks(hs, hs', s2) && SameLinks(hs, hs', s3)
    ensures ThreeLists(hs', h1, s1, h2, s2, h3, s3)
  {
    ListFrame(hs, hs', h1, s1);
    ListFrame(hs, hs', h2, s2);
    ListFrame(hs, hs', h3, s3);
  }

  /** Writing a header that keeps the slab's links, or adding one for a new slab, keeps the three lists. */
  lemma HeaderWriteKeepsLists(hs: Headers, x: nat, h: SlabHeader, h1: Option<nat>, s1: seq<nat>,
                              h2: Option<nat>, s2: seq<nat>, h3: Option<nat>, s3: seq<nat>)
    requires ThreeLists(hs, h1, s1, h2, s2, h3, s3)
    requires x in hs ==> h.previous == hs[x].previous && h.next == hs[x].next
    ensures ThreeLists(hs[x := h], h1, s1, h2, s2, h3, s3)
  {
    assert forall i :: 0 <= i < |s1| ==> s1[i] in s1;
    assert forall i :: 0 <= i < |s2| ==> s2[i] in s2;
    assert forall i :: 0 <= i < |s3| ==> s3[i] in s3;
    ThreeListsFrame(hs, hs[x := h], h1, s1, h2, s2, h3, s3);
  }

  /**
   Popping the head of s (its successor's `previous` becomes null) keeps the
   rest of s and two lists disjoint from s well formed; the popped slab is on
   none of them.
   */
  lemma PopKeepsLists(hs: Headers, s: seq<nat>, ha: Option<nat>, a: seq<nat>, hb: Option<nat>, b: seq<nat>)
    requires IsList(hs, First(s), s) && IsList(hs, ha, a) && IsList(hs, hb, b)
    requires s != []
    requires Disjoint(s, a) && Disjoint(s, b)
    ensures hs[s[0]].next == First(s[1..])
    ensures IsList(ClearPrevious(hs, First(s[1..])), First(s[1..]), s[1..])
    ensures IsList(ClearPrevious(hs, First(s[1..])), ha, a) && IsList(ClearPrevious(hs, First(s[1..])), hb, b)
    ensures Disjoint(s[1..], a) && Disjoint(a, s[1..]) && Disjoint(s[1..], b) && Disjoint(b, s[1..])
    ensures s[0] !in s[1..] && s[0] !in a && s[0] !in b
    ensures Refcnts(ClearPrevious(hs, First(s[1..]))) == Refcnts(hs)
  {
    PopKeepsList(hs, s);
    DistinctTail(s);
    DisjointMembers(s, a);
    DisjointMembers(s, b);
    RefcntsFrom(hs, ClearPrevious(hs, First(s[1..])));
    var hs' := ClearPrevious(hs, First(s[1..]));
    assert s == [s[0]] + s[1..];
    forall y | y in a ensures y in hs && y in hs' && hs'[y].previous == hs[y].previous && hs'[y].next == hs[y].next {
      assert y !in s;
    }
    forall y | y in b ensures y in hs && y in hs' && hs'[y].previous == hs[y].previous && hs'[y].next == hs[y].next {
      assert y !in s;
    }
    ListFrame(hs, hs', ha, a);
    ListFrame(hs, hs', hb, b);
    MembersDisjoint(s[1..], a);
    MembersDisjoint(s[1..], b);
    DisjointMembers(s[1..], a);
    DisjointMembers(s[1..], b);
  }

  /** The slabs of a list are its head and the slabs of its tail. */
  lemma ElementsOfTail(s: seq<nat>)
    requires s != []
    ensures Elements(s) == {s[0]} + Elements(s[1..])
  {
    assert s == [s[0]] + s[1..];
  }

  /** The slabs of a list after a push are the pushed slab and the old ones. */
  lemma ElementsOfPush(x: nat, s: seq<nat>)
    ensures Elements([x] + s) == {x} + Elements(s)
  {
  }

  /** Taking a slab out of a list without repetitions removes exactly its one position. */
  lemma {:induction false} WithoutAt(s: seq<nat>, k: nat)
    requires Distinct(s) && k < |s|
    ensures Without(s, s[k]) == s[..k] + s[k + 1..]
  {
    DistinctTail(s);
    if k == 0 {
      WithoutAbsent(s[1..], s[0]);
    } else {
      WithoutAt(s[1..], k - 1);
      assert s[1..][k - 1] == s[k];
      assert s[1..][..k - 1] + s[1..][k..] == s[1..k] + s[k + 1..];
      assert s[..k] == [s[0]] + s[1..k];
    }
  }

  /** Taking out a slab that is not on a list leaves the list as it is. */
  lemma {:induction false} WithoutAbsent(s: seq<nat>, x: nat)
    requires x !in s
    ensures Without(s, x) == s
  {
    if s != [] {
      WithoutAbsent(s[1..], x);
    }
  }

  /** Taking every occurrence of x out of a list takes x out of its set of slabs. */
  lemma ElementsOfWithout(s: seq<nat>, x: nat)
    ensures Elements(Without(s, x)) == Elements(s) - {x}
  {
  }

  /** A list stays well formed once the headers of slabs not on it are gone. */
  lemma DropKeepsList(hs: Headers, head: Option<nat>, s: seq<nat>, drop: set<nat>)
    requires IsList(hs, head, s)
    requires forall y :: y in s ==> y !in drop
    ensures IsList(hs - drop, head, s)
  {
    assert forall i :: 0 <= i < |s| ==> s[i] in s;
    ListFrame(hs, hs - drop, head, s);
  }

  /** rc is rc0 with the slabs of drop gone. */
  ghost predicate Dropped(rc0: map<nat, nat>, rc: map<nat, nat>, drop: set<nat>)
  {
    rc == rc0 - drop
  }

  /** Dropping headers drops their refcnts and keeps the others. */
  lemma RefcntsDrop(hs: Headers, hs': Headers, drop: set<nat>)
    requires hs' == hs - drop
    ensures Dropped(Refcnts(hs), Refcnts(hs'), drop)
  {
  }

  /** The refcnt map has an entry for every header and no other. */
  lemma RefcntKeys(hs: Headers)
    ensures Refcnts(hs).Keys == hs.Keys
  {
  }

  /** Dropping three sets of headers in turn drops their union. */
  lemma DropInTurn(hs: Headers, a: set<nat>, b: set<nat>, c: set<nat>)
    ensures hs - a - b - c == hs - (a + b + c)
  {
  }

  /** Three empty lists are well formed in any header map. */
  lemma NoListsWellFormed(hs: Headers)
    ensures ThreeLists(hs, None, [], None, [], None, [])
  {
  }
}
