/**
  The insertion-ordered dictionary: a map from keys to links of a circular doubly linked list with a
  sentinel, rewired in place, refining a sequence of keys.
*/
module OrderedDictionary {
  import opened Containers

  /** The list `s` with the key `k` taken out. */
  function Without<K(==,!new)>(s: seq<K>, k: K): (r: seq<K>)
    ensures forall x :: x in r <==> x in s && x != k
  {
    if s == [] then []
    else if s[0] == k then Without(s[1..], k)
    else [s[0]] + Without(s[1..], k)
  }

  lemma {:induction false} WithoutAbsent<K(!new)>(s: seq<K>, k: K)
    requires k !in s
    ensures Without(s, k) == s
    decreases |s|
  {
    if s != [] {
      WithoutAbsent(s[1..], k);
    }
  }

  /** Taking out a key that occurs once closes the gap it leaves. */
  lemma {:induction false} WithoutAt<K(!new)>(s: seq<K>, i: nat)
    requires i < |s| && Distinct(s)
    ensures Without(s, s[i]) == s[..i] + s[i + 1..]
    decreases |s|
  {
    if i == 0 {
      assert s[0] !in s[1..];
      WithoutAbsent(s[1..], s[0]);
      assert s[..0] + s[1..] == s[1..];
    } else {
      assert s[1..][i - 1] == s[i];
      WithoutAt(s[1..], i - 1);
      assert s[..i] + s[i + 1..] == [s[0]] + (s[1..][..i - 1] + s[1..][i..]);
    }
  }

  function Reverse<T>(s: seq<T>): seq<T> {
    if s == [] then [] else Reverse(s[1..]) + [s[0]]
  }

  lemma {:induction false} ReverseSnoc<T>(s: seq<T>, x: T)
    ensures Reverse(s + [x]) == [x] + Reverse(s)
    decreases |s|
  {
    if s == [] {
      assert s + [x] == [x];
    } else {
      assert (s + [x])[1..] == s[1..] + [x];
      ReverseSnoc(s[1..], x);
    }
  }

  lemma {:induction false} ReverseLast<T>(s: seq<T>, i: nat)
    requires 0 < i <= |s|
    ensures Reverse(s[..i]) == [s[i - 1]] + Reverse(s[..i - 1])
  {
    assert s[..i] == s[..i - 1] + [s[i - 1]];
    ReverseSnoc(s[..i - 1], s[i - 1]);
  }

  lemma {:induction false} ReverseNothing<T>(s: seq<T>)
    requires s == []
    ensures Reverse(s) == []
  {
  }

  class Link<K(==)> {
    var prev: Link?<K>
    var next: Link?<K>
    const key: Option<K>

    constructor (key: Option<K>)
      ensures this.key == key
    {
      this.key, prev, next := key, null, null;
    }
  }

  /** Keys, links and the two tables agree one-to-one. */
  ghost predicate Indexed<K(!new)>(order: seq<K>, links: seq<Link<K>>, index: map<K, Link<K>>, keys: set<K>) {
    && |order| == |links| && Distinct(order)
    && index.Keys == keys && (forall k :: k in keys <==> k in order)
    && (forall i :: 0 <= i < |links| ==>
          links[i].key == Some(order[i]) && order[i] in index && index[order[i]] == links[i])
  }

  lemma {:induction false} IndexedAppend<K(!new)>(
    order: seq<K>, links: seq<Link<K>>, index: map<K, Link<K>>, keys: set<K>, key: K, link: Link<K>)
    requires Indexed(order, links, index, keys) && key !in keys && link.key == Some(key)
    ensures Indexed(order + [key], links + [link], index[key := link], keys + {key})
  {
  }

  lemma {:induction false} IndexedRemove<K(!new)>(
    order: seq<K>, links: seq<Link<K>>, index: map<K, Link<K>>, keys: set<K>, i: nat)
    requires Indexed(order, links, index, keys) && i < |order|
    ensures Indexed(order[..i] + order[i + 1..], links[..i] + links[i + 1..], index - {order[i]}, keys - {order[i]})
  {
    var order', links' := order[..i] + order[i + 1..], links[..i] + links[i + 1..];
    forall j | 0 <= j < |order'|
      ensures order'[j] != order[i] && links'[j].key == Some(order'[j]) && index[order'[j]] == links'[j]
    {
      var from := if j < i then j else j + 1;
      assert order'[j] == order[from] && links'[j] == links[from];
    }
    forall k | k in keys - {order[i]}
      ensures k in order'
    {
      var from :| 0 <= from < |order| && order[from] == k;
      assert order'[if from < i then from else from - 1] == k;
    }
  }

  /** A list of different things without one of them. */
  lemma {:induction false} Spliced<T>(s: seq<T>, k: nat)
    requires Distinct(s) && k < |s|
    ensures var r := s[..k] + s[k + 1..];
            && Distinct(r) && (forall i :: 0 <= i < |r| ==> r[i] == s[if i < k then i else i + 1])
            && (forall x :: x in r ==> x in s)
    ensures forall i, j :: 0 <= i < |s| && 0 <= j < |s| && i != j ==> s[i] != s[j]
  {
  }

  class OrderedDict<K(==,!new), V> {
    const root: Link<K>  // the sentinel
    var dict: map<K, V>
    var index: map<K, Link<K>>

    ghost var order: seq<K>
    ghost var links: seq<Link<K>>

    /** The link at position `i`; both ends meet in the sentinel. */
    ghost function At(i: int): Link<K>
      reads `links
    {
      if 0 <= i < |links| then links[i] else root
    }

    /** All links, the sentinel included. */
    ghost function Links(): set<object>
      reads `links
    {
      {root} + (set l | l in links)
    }

    /** Everything the object owns. */
    ghost function Repr(): set<object>
      reads `links
    {
      {this} + Links()
    }

    /** A well-formed circular doubly linked list through the sentinel. */
    ghost predicate Ring()
      reads `links, Links()
    {
      && root !in links && Distinct(links)
      && root.next == At(0) && root.prev == At(|links| - 1)
      && (forall i {:trigger links[i].prev} :: 0 <= i < |links| ==> links[i].prev == At(i - 1))
      && (forall i {:trigger links[i].next} :: 0 <= i < |links| ==> links[i].next == At(i + 1))
    }

    ghost predicate Valid()
      reads this, Links()
    {
      Ring() && Indexed(order, links, index, dict.Keys)
    }

    constructor ()
      ensures Valid() && dict == map[] && order == [] && fresh(Repr())
    {
      root := new Link<K>(None);
      dict, index := map[], map[];
      order, links := [], [];
      new;
      root.prev, root.next := root, root;
    }

    /** Put a new link between the last one and the sentinel. */
    method PushBack(key: K) returns (link: Link<K>)
      requires Ring()
      modifies `links, root`prev, root.prev`next
      ensures fresh(link) && link.key == Some(key)
      ensures Ring() && links == old(links) + [link]
    {
      var last := root.prev;
      link := new Link<K>(Some(key));
      link.prev, link.next := last, root;
      last.next := link;
      root.prev := link;
      links := links + [link];
      assert forall i :: 0 <= i < |links| - 1 ==> links[i] == old(links)[i];
    }

    /** The forward pointers run through `ls`. */
    ghost predicate Forward(ls: seq<Link<K>>)
      reads {root} + set l | l in ls
    {
      && root.next == (if ls == [] then root else ls[0])
      && forall i {:trigger ls[i].next} :: 0 <= i < |ls| ==> ls[i].next == (if i + 1 < |ls| then ls[i + 1] else root)
    }

    /** The backward pointers run through `ls`. */
    ghost predicate Backward(ls: seq<Link<K>>)
      reads {root} + set l | l in ls
    {
      && root.prev == (if ls == [] then root else ls[|ls| - 1])
      && forall i {:trigger ls[i].prev} :: 0 <= i < |ls| ==> ls[i].prev == (if i > 0 then ls[i - 1] else root)
    }

    lemma {:induction false} RingIs()
      ensures Ring() <==> root !in links && Distinct(links) && Forward(links) && Backward(links)
    {
      if root !in links && Distinct(links) && Forward(links) && Backward(links) {
        forall i | 0 <= i < |links|
          ensures links[i].prev == At(i - 1) && links[i].next == At(i + 1)
        {
        }
      }
    }

    /** The forward pointer in front of the link at position `k` is led past it. */
    method JoinForward(link: Link<K>, ghost k: nat)
      requires root !in links && Distinct(links) && k < |links| && links[k] == link
      requires Forward(links) && link.prev == At(k - 1)
      modifies link.prev`next
      ensures Forward(links[..k] + links[k + 1..])
    {
      ghost var now := links[..k] + links[k + 1..];
      Spliced(links, k);
      var linkPrev := link.prev;
      linkPrev.next := link.next;
      forall i | 0 <= i < |now|
        ensures now[i].next == (if i + 1 < |now| then now[i + 1] else root)
      {
        ghost var l := links[if i < k then i else i + 1];
        assert now[i] == l && (i + 1 < |now| ==> now[i + 1] == links[if i + 1 < k then i + 1 else i + 2]);
        assert i != k - 1 ==> l.next == old(l.next);
      }
    }

    /** The backward pointer behind it is led past it, too. */
    method JoinBackward(link: Link<K>, ghost k: nat)
      requires root !in links && Distinct(links) && k < |links| && links[k] == link
      requires Backward(links) && link.next == At(k + 1)
      modifies link.next`prev
      ensures Backward(links[..k] + links[k + 1..])
    {
      ghost var now := links[..k] + links[k + 1..];
      Spliced(links, k);
      var linkNext := link.next;
      linkNext.prev := link.prev;
      forall i | 0 <= i < |now|
        ensures now[i].prev == (if i > 0 then now[i - 1] else root)
      {
        ghost var l := links[if i < k then i else i + 1];
        assert now[i] == l && (i > 0 ==> now[i - 1] == links[if i - 1 < k then i - 1 else i]);
        assert i != k ==> l.prev == old(l.prev);
      }
    }

    /** Join the neighbours of the link at position `k`. */
    method Unlink(link: Link<K>, ghost k: nat)
      requires Ring() && k < |links| && links[k] == link
      modifies `links, link.prev`next, link.next`prev
      ensures Ring() && links == old(links)[..k] + old(links)[k + 1..]
    {
      RingIs();
      Spliced(links, k);
      assert link.prev == At(k - 1) && link.next == At(k + 1);
      hide Distinct, Ring;
      ghost var was, now := links, links[..k] + links[k + 1..];
      JoinForward(link, k);
      label Joined:
      assert forall l :: l in was || l == root ==> l.prev == old(l.prev);
      JoinBackward(link, k);
      assert forall l :: l in now || l == root ==> l.next == old@Joined(l.next);
      links := now;
      RingIs();
    }

    method SetItem(key: K, value: V)
      requires Valid()
      modifies Repr()
      ensures Valid() && dict == old(dict)[key := value] && fresh(Repr() - old(Repr()))
      ensures order == if key in old(dict) then old(order) else old(order) + [key]
    {
      hide Ring, Indexed;
      RingParts();
      if key !in dict {
        var link := PushBack(key);
        IndexedAppend(order, old(links), index, dict.Keys, key, link);
        assert this !in Links();
        index := index[key := link];
        order := order + [key];
      }
      assert this !in Links();
      dict := dict[key := value];
      assert dict.Keys == old(dict.Keys) + {key};
      assert key in old(dict) ==> dict.Keys == old(dict.Keys);
    }

    /** Deleting a missing key is a KeyError and changes nothing. */
    method DelItem(key: K) returns (found: bool)
      requires Valid()
      modifies Repr()
      ensures Valid() && found == (key in old(dict)) && Repr() <= old(Repr())
      ensures dict == old(dict) - {key} && order == Without(old(order), key)
    {
      hide Ring, Indexed;
      ghost var k := PositionOf(key);
      if key !in dict {
        WithoutAbsent(order, key);
        return false;
      }
      WithoutAt(order, k);
      IndexedRemove(order, links, index, dict.Keys, k);
      NeighboursOf(k);
      var link := index[key];
      Unlink(link, k);
      assert this !in Links();
      dict := dict - {key};
      index := index - {key};
      order := order[..k] + order[k + 1..];
      assert dict.Keys == old(dict.Keys) - {key};
      found := true;
    }

    /** Where a key of the dictionary sits in the list. */
    lemma {:induction false} PositionOf(key: K) returns (k: nat)
      requires Valid()
      ensures Distinct(order) && |order| == |links| && index.Keys == dict.Keys
      ensures key !in dict ==> key !in order
      ensures key in dict ==> k < |order| && order[k] == key && index[key] == links[k]
    {
      k := 0;
      if key in dict {
        k :| 0 <= k < |order| && order[k] == key;
      }
    }

    /** The list holds exactly the keys, once each. */
    lemma {:induction false} ListedOnce()
      requires Valid()
      ensures Distinct(order) && forall k :: k in dict <==> k in order
    {
    }

    lemma {:induction false} RingParts()
      requires Ring()
      ensures root.prev in Repr() && root.prev != null && root !in links && Distinct(links)
    {
    }

    lemma {:induction false} NeighboursOf(k: nat)
      requires Ring() && k < |links|
      ensures links[k].prev in Repr() && links[k].next in Repr()
    {
    }

    /** The forward walk visits the keys in insertion order. */
    method Iterate() returns (keys: seq<K>)
      requires Valid()
      ensures keys == order
    {
      keys := [];
      var curr := root.next;
      ghost var i := 0;
      while curr != root
        invariant 0 <= i <= |links| && curr == At(i) && keys == order[..i]
        decreases |links| - i
      {
        keys := keys + [curr.key.value];
        curr := curr.next;
        i := i + 1;
      }
    }

    /** The backward walk visits them in reverse. */
    method Reversed() returns (keys: seq<K>)
      requires Valid()
      ensures keys == Reverse(order)
    {
      hide Reverse, Indexed, Ring, At;
      keys := [];
      var curr := root.prev;
      ghost var i := |links|;
      EndOfRing();
      assert order[..i] == order;
      if i > 0 {
        StepBack(i);
      }
      while curr != root
        invariant Valid() && 0 <= i <= |links| && curr == At(i - 1) && |links| == |order|
        invariant Reverse(order) == keys + Reverse(order[..i])
        invariant i == 0 <==> curr == root
        decreases i
      {
        StepBack(i);
        ReverseLast(order, i);
        keys := keys + [curr.key.value];
        curr := curr.prev;
        i := i - 1;
        if i > 0 {
          StepBack(i);
        }
      }
      ReverseNothing(order[..0]);
    }

    lemma {:induction false} EndOfRing()
      requires Valid()
      ensures |links| == |order| && root.prev == At(|links| - 1) && At(-1) == root
    {
    }

    /** One step of the backward walk. */
    lemma {:induction false} StepBack(i: nat)
      requires Valid() && 0 < i <= |links|
      ensures |links| == |order| && At(i - 1) != root && At(i - 1) in links
      ensures At(i - 1).key == Some(order[i - 1]) && At(i - 1).prev == At(i - 2) && (i == 1 ==> At(i - 2) == root)
    {
      assert links[i - 1].prev == At(i - 2);
    }

    /** The first step of an iteration: the oldest key. */
    method First() returns (key: Option<K>)
      requires Valid()
      ensures key == if order == [] then None else Some(order[0])
    {
      var curr := root.next;
      if curr == root {
        return None;
      }
      key := curr.key;
    }

    method Clear()
      requires Valid()
      modifies Repr()
      ensures Valid() && dict == map[] && order == [] && Repr() <= old(Repr())
    {
      root.prev, root.next := root, root;
      index, dict := map[], map[];
      links, order := [], [];
    }
  }
}
