/** common/doubly_list.h: intrusive circular doubly linked lists. A list is a head node
    plus a ghost sequence of the entries that follow it around the ring. */
module DoublyList {
  import opened Seqs

  class ListHead {
    var next: ListHead
    var prev: ListHead

    /** LIST_HEAD_INIT: a head alone is an empty list. */
    constructor Init()
      ensures IsList(this, [])
    {
      next := this;
      prev := this;
      new;
      assert Linked(At(this, [], 0), At(this, [], Succ([], 0)));
    }
  }

  /** Position i of the ring: the head at 0, then the entries. */
  function At(head: ListHead, s: seq<ListHead>, i: nat): ListHead
    requires i <= |s|
  {
    if i == 0 then head else s[i - 1]
  }

  function Succ(s: seq<ListHead>, i: nat): (j: nat)
    requires i <= |s|
    ensures j <= |s|
  {
    if i == |s| then 0 else i + 1
  }

  ghost predicate Linked(a: ListHead, b: ListHead)
    reads a, b
  {
    a.next == b && b.prev == a
  }

  ghost predicate Distinct(head: ListHead, s: seq<ListHead>) {
    && head !in s
    && forall i, j :: 0 <= i < j < |s| ==> s[i] != s[j]
  }

  /** The list at `head` holds exactly the entries `s`, front to back: every ring position
      points to its successor, which points back. */
  ghost predicate IsList(head: ListHead, s: seq<ListHead>)
    reads head, s
  {
    && Distinct(head, s)
    && forall i :: 0 <= i <= |s| ==> Linked(At(head, s, i), At(head, s, Succ(s, i)))
  }

  ghost predicate On(older x: ListHead, head: ListHead, s: seq<ListHead>) {
    x == head || x in s
  }

  ghost predicate Disjoint(h1: ListHead, s1: seq<ListHead>, h2: ListHead, s2: seq<ListHead>) {
    forall x :: On(x, h1, s1) ==> !On(x, h2, s2)
  }

  /** The neighbours of entry k, as the pointers say. */
  lemma Neighbours(head: ListHead, s: seq<ListHead>, k: nat)
    requires IsList(head, s) && k < |s|
    ensures s[k].prev == At(head, s, k)
    ensures s[k].next == At(head, s, Succ(s, k + 1))
    ensures s[k] != head && On(s[k].prev, head, s) && On(s[k].next, head, s)
    ensures s[k].prev != s[k] && s[k].next != s[k]
  {
    assert Linked(At(head, s, k), At(head, s, Succ(s, k)));
    assert Linked(At(head, s, k + 1), At(head, s, Succ(s, k + 1)));
  }

  lemma Ends(head: ListHead, s: seq<ListHead>)
    requires IsList(head, s)
    ensures head.next == At(head, s, Succ(s, 0)) && head.prev == At(head, s, |s|)
    ensures On(head.next, head, s) && On(head.prev, head, s)
  {
    assert Linked(At(head, s, 0), At(head, s, Succ(s, 0)));
    assert Linked(At(head, s, |s|), At(head, s, Succ(s, |s|)));
  }

  /** The pointers determine the list: a head cannot carry two different sequences. */
  lemma ListIsUnique(head: ListHead, s: seq<ListHead>, t: seq<ListHead>)
    requires IsList(head, s) && IsList(head, t)
    ensures s == t
  {
    SamePrefix(head, s, t, Shorter(s, t));
    var m := Shorter(s, t);
    assert At(head, s, m) == At(head, t, m);
    assert Linked(At(head, s, m), At(head, s, Succ(s, m)));
    assert Linked(At(head, t, m), At(head, t, Succ(t, m)));
  }

  function Shorter<T>(s: seq<T>, t: seq<T>): (m: nat)
    ensures m <= |s| && m <= |t| && (m == |s| || m == |t|)
  {
    if |s| < |t| then |s| else |t|
  }

  lemma {:induction false} SamePrefix(head: ListHead, s: seq<ListHead>, t: seq<ListHead>, k: nat)
    requires IsList(head, s) && IsList(head, t) && k <= |s| && k <= |t|
    ensures s[..k] == t[..k]
    decreases k
  {
    if k > 0 {
      SamePrefix(head, s, t, k - 1);
      assert At(head, s, k - 1) == At(head, t, k - 1) by {
        assert k > 1 ==> s[..k - 1][k - 2] == t[..k - 1][k - 2];
      }
      assert Linked(At(head, s, k - 1), At(head, s, Succ(s, k - 1)));
      assert Linked(At(head, t, k - 1), At(head, t, Succ(t, k - 1)));
      assert s[..k] == s[..k - 1] + [s[k - 1]] && t[..k] == t[..k - 1] + [t[k - 1]];
    }
  }

  method InitListHead(ptr: ListHead)
    modifies ptr
    ensures IsList(ptr, [])
  {
    ptr.next := ptr;
    ptr.prev := ptr;
  }

  // ---------------------------------------------------------------- insertion

  /** __list_add between the consecutive ring positions k and k + 1 of the list at `head`. */
  method ListAddBetween(node: ListHead, prev: ListHead, next: ListHead,
                        ghost head: ListHead, ghost s: seq<ListHead>, ghost k: nat)
    requires IsList(head, s) && !On(node, head, s) && k <= |s|
    requires prev == At(head, s, k) && next == At(head, s, Succ(s, k))
    modifies node, prev`next, next`prev
    ensures IsList(head, s[..k] + [node] + s[k..])
  {
    next.prev := node;
    node.next := next;
    node.prev := prev;
    prev.next := node;
    ghost var r := s[..k] + [node] + s[k..];
    forall i | 0 <= i <= |r|
      ensures Linked(At(head, r, i), At(head, r, Succ(r, i)))
    {
      ghost var a, b := At(head, r, i), At(head, r, Succ(r, i));
      if i < k {
        assert a == At(head, s, i) && b == At(head, s, Succ(s, i));
        assert old(Linked(At(head, s, i), At(head, s, Succ(s, i))));
        assert a != prev && b != next;
      } else if i > k + 1 {
        assert a == At(head, s, i - 1) && b == At(head, s, Succ(s, i - 1));
        assert old(Linked(At(head, s, i - 1), At(head, s, Succ(s, i - 1))));
        assert a != prev && b != next;
      }
    }
  }

  method ListAddHead(node: ListHead, head: ListHead, ghost s: seq<ListHead>)
    requires IsList(head, s) && !On(node, head, s)
    modifies node, head`next, head.next`prev
    ensures IsList(head, [node] + s)
  {
    Ends(head, s);
    ListAddBetween(node, head, head.next, head, s, 0);
    assert s[..0] + [node] + s[0..] == [node] + s;
  }

  method ListAddTail(node: ListHead, head: ListHead, ghost s: seq<ListHead>)
    requires IsList(head, s) && !On(node, head, s)
    modifies node, head`prev, head.prev`next
    ensures IsList(head, s + [node])
  {
    Ends(head, s);
    ListAddBetween(node, head.prev, head, head, s, |s|);
    assert s[..|s|] + [node] + s[|s|..] == s + [node];
  }

  // ---------------------------------------------------------------- deletion

  /** list_del: the entry leaves the list, its own pointers stay as they were. */
  method ListDel(entry: ListHead, ghost head: ListHead, ghost s: seq<ListHead>, ghost k: nat)
    requires IsList(head, s) && k < |s| && s[k] == entry
    modifies entry.prev`next, entry.next`prev
    ensures IsList(head, Remove(s, k)) && !On(entry, head, Remove(s, k))
    ensures entry.next == old(entry.next) && entry.prev == old(entry.prev)
    ensures entry.prev.next == entry.next && entry.next.prev == entry.prev
  {
    Neighbours(head, s, k);
    var prev, next := entry.prev, entry.next;
    next.prev := prev;
    prev.next := next;
    ghost var r := Remove(s, k);
    forall i | 0 <= i <= |r|
      ensures Linked(At(head, r, i), At(head, r, Succ(r, i)))
    {
      ghost var a, b := At(head, r, i), At(head, r, Succ(r, i));
      if i < k {
        assert a == At(head, s, i) && b == At(head, s, Succ(s, i));
        assert old(Linked(At(head, s, i), At(head, s, Succ(s, i))));
        assert a != prev && b != next;
      } else if i > k {
        assert a == At(head, s, i + 1) && b == At(head, s, Succ(s, i + 1));
        assert old(Linked(At(head, s, i + 1), At(head, s, Succ(s, i + 1))));
        assert a != prev && b != next;
      }
    }
  }

  method ListDelInit(entry: ListHead, ghost head: ListHead, ghost s: seq<ListHead>, ghost k: nat)
    requires IsList(head, s) && k < |s| && s[k] == entry
    modifies entry, entry.prev`next, entry.next`prev
    ensures IsList(head, Remove(s, k)) && !On(entry, head, Remove(s, k)) && IsList(entry, [])
  {
    Neighbours(head, s, k);
    ListDel(entry, head, s, k);
    InitListHead(entry);
  }

  // ---------------------------------------------------------------- moves

  /** What the target list of a move holds once the entry has left its list. */
  ghost function Target(head: ListHead, from: ListHead, s: seq<ListHead>, k: nat, t: seq<ListHead>): seq<ListHead>
    requires k < |s|
  {
    if from == head then Remove(s, k) else t
  }

  ghost predicate MoveOk(entry: ListHead, head: ListHead, from: ListHead, s: seq<ListHead>, k: nat, t: seq<ListHead>)
    reads from, s, head, t
  {
    && IsList(from, s) && k < |s| && s[k] == entry
    && IsList(head, t)
    && ((from == head && s == t) || Disjoint(from, s, head, t))
  }

  /** The unlinking half of a move, seen from both lists. */
  method Unlink(entry: ListHead, ghost head: ListHead,
                ghost from: ListHead, ghost s: seq<ListHead>, ghost k: nat, ghost t: seq<ListHead>)
    requires MoveOk(entry, head, from, s, k, t)
    modifies entry.prev`next, entry.next`prev
    ensures IsList(head, Target(head, from, s, k, t)) && !On(entry, head, Target(head, from, s, k, t))
    ensures from != head ==> IsList(from, Remove(s, k)) && Disjoint(from, Remove(s, k) + [entry], head, t)
    ensures head.next == old(head.next) || head.next == old(entry.next)
    ensures head.prev == old(head.prev) || head.prev == old(entry.prev)
  {
    Neighbours(from, s, k);
    assert On(entry, from, s) && On(head, head, t);
    ListDel(entry, from, s, k);
  }

  /** list_move: from any list, the target list included, to the front of the target. */
  method ListMove(entry: ListHead, head: ListHead,
                  ghost from: ListHead, ghost s: seq<ListHead>, ghost k: nat, ghost t: seq<ListHead>)
    requires MoveOk(entry, head, from, s, k, t)
    modifies entry, entry.prev`next, entry.next`prev, head`next, head.next`prev
    ensures from == head ==> IsList(head, [entry] + Remove(s, k))
    ensures from != head ==> IsList(from, Remove(s, k)) && IsList(head, [entry] + t)
  {
    Unlink(entry, head, from, s, k, t);
    ghost var t' := Target(head, from, s, k, t);
    Ends(head, t');
    assert entry in Remove(s, k) + [entry] && On(entry, from, Remove(s, k) + [entry]);
    ListAddHead(entry, head, t');
  }

  method ListMoveTail(entry: ListHead, head: ListHead,
                      ghost from: ListHead, ghost s: seq<ListHead>, ghost k: nat, ghost t: seq<ListHead>)
    requires MoveOk(entry, head, from, s, k, t)
    modifies entry, entry.prev`next, entry.next`prev, head`prev, head.prev`next
    ensures from == head ==> IsList(head, Remove(s, k) + [entry])
    ensures from != head ==> IsList(from, Remove(s, k)) && IsList(head, t + [entry])
  {
    Unlink(entry, head, from, s, k, t);
    ghost var t' := Target(head, from, s, k, t);
    Ends(head, t');
    assert entry in Remove(s, k) + [entry] && On(entry, from, Remove(s, k) + [entry]);
    ListAddTail(entry, head, t');
  }

  // ---------------------------------------------------------------- queries

  method ListEmpty(head: ListHead, ghost s: seq<ListHead>) returns (empty: bool)
    requires IsList(head, s)
    ensures empty <==> s == []
  {
    Ends(head, s);
    empty := head.next == head;
  }

  method ListSize(list: ListHead, ghost s: seq<ListHead>) returns (n: nat)
    requires IsList(list, s)
    ensures n == |s|
  {
    Ends(list, s);
    n := 0;
    var pos := list.next;
    var nxt := pos.next;
    while pos != list
      invariant 0 <= n <= |s|
      invariant pos == At(list, s, Succ(s, n))
      invariant nxt == pos.next
      decreases |s| - n
    {
      Neighbours(list, s, n);
      n := n + 1;
      pos := nxt;
      nxt := pos.next;
    }
  }

  // ---------------------------------------------------------------- splicing

  /** __list_splice: the entries of `list` are inserted at the front of the list at `head`;
      the node `list` itself keeps its pointers into the joined ring. */
  method ListSpliceNonEmpty(list: ListHead, head: ListHead, ghost s: seq<ListHead>, ghost t: seq<ListHead>)
    requires IsList(list, s) && IsList(head, t) && Disjoint(list, s, head, t) && s != []
    modifies head`next, head.next`prev, list.next`prev, list.prev`next
    ensures IsList(head, s + t) && !On(list, head, s + t)
    ensures list.next == old(list.next) && list.prev == old(list.prev)
  {
    Ends(list, s);
    Ends(head, t);
    var first, last, at := list.next, list.prev, head.next;
    first.prev := head;
    head.next := first;
    last.next := at;
    at.prev := last;
    SpliceDistinct(list, s, head, t);
    ghost var r := s + t;
    forall i | 0 <= i <= |r|
      ensures Linked(At(head, r, i), At(head, r, Succ(r, i)))
    {
      ghost var a, b := At(head, r, i), At(head, r, Succ(r, i));
      if 0 < i < |s| {
        assert a == At(list, s, i) && b == At(list, s, Succ(s, i));
        assert old(Linked(At(list, s, i), At(list, s, Succ(s, i))));
        assert On(a, list, s) && On(b, list, s);
      } else if i > |s| {
        assert a == At(head, t, i - |s|) && b == At(head, t, Succ(t, i - |s|));
        assert old(Linked(At(head, t, i - |s|), At(head, t, Succ(t, i - |s|))));
        assert On(a, head, t) && On(b, head, t);
      }
    }
  }

  lemma SpliceDistinct(list: ListHead, s: seq<ListHead>, head: ListHead, t: seq<ListHead>)
    requires Distinct(list, s) && Distinct(head, t) && Disjoint(list, s, head, t)
    ensures Distinct(head, s + t) && !On(list, head, s + t)
  {
    assert On(list, list, s);
    assert forall i :: 0 <= i < |s| ==> On(s[i], list, s);
    assert forall i :: 0 <= i < |t| ==> On(t[i], head, t);
  }

  method ListSplice(list: ListHead, head: ListHead, ghost s: seq<ListHead>, ghost t: seq<ListHead>)
    requires IsList(list, s) && IsList(head, t) && Disjoint(list, s, head, t)
    modifies head`next, head.next`prev, list.next`prev, list.prev`next
    ensures IsList(head, s + t)
    ensures list.next == old(list.next) && list.prev == old(list.prev)
  {
    var empty := ListEmpty(list, s);
    if !empty {
      ListSpliceNonEmpty(list, head, s, t);
    } else {
      assert s + t == t;
    }
  }

  method ListSpliceInit(list: ListHead, head: ListHead, ghost s: seq<ListHead>, ghost t: seq<ListHead>)
    requires IsList(list, s) && IsList(head, t) && Disjoint(list, s, head, t)
    modifies list, head`next, head.next`prev, list.next`prev, list.prev`next
    ensures IsList(head, s + t) && IsList(list, [])
  {
    var empty := ListEmpty(list, s);
    if !empty {
      ListSpliceNonEmpty(list, head, s, t);
      InitListHead(list);
    } else {
      assert s + t == t;
    }
  }

  // ---------------------------------------------------------------- lists beside them

  /** The frames above name the rewritten pointers only, so a list that shares no node with the
      lists involved stays the list it was: here beside a move from one list to another ... */
  method MoveBeside(entry: ListHead, head: ListHead, ghost from: ListHead, ghost s: seq<ListHead>, ghost k: nat,
                    ghost t: seq<ListHead>, ghost other: ListHead, ghost u: seq<ListHead>)
    requires MoveOk(entry, head, from, s, k, t) && IsList(other, u)
    requires Disjoint(from, s, other, u) && Disjoint(head, t, other, u)
    modifies entry, entry.prev`next, entry.next`prev, head`prev, head.prev`next
    ensures from == head ==> IsList(head, Remove(s, k) + [entry])
    ensures from != head ==> IsList(from, Remove(s, k)) && IsList(head, t + [entry])
    ensures IsList(other, u)
  {
    Neighbours(from, s, k);
    Ends(head, t);
    assert On(entry, from, s) && On(head, head, t);
    assert forall x :: On(x, other, u) ==> !On(x, from, s) && !On(x, head, t);
    ListMoveTail(entry, head, from, s, k, t);
  }

  /** ... and beside a splice. */
  method SpliceBeside(list: ListHead, head: ListHead, ghost s: seq<ListHead>, ghost t: seq<ListHead>,
                      ghost other: ListHead, ghost u: seq<ListHead>)
    requires IsList(list, s) && IsList(head, t) && Disjoint(list, s, head, t) && IsList(other, u)
    requires Disjoint(list, s, other, u) && Disjoint(head, t, other, u)
    modifies list, head`next, head.next`prev, list.next`prev, list.prev`next
    ensures IsList(head, s + t) && IsList(list, []) && IsList(other, u)
  {
    Ends(list, s);
    Ends(head, t);
    assert On(list, list, s) && On(head, head, t);
    assert forall x :: On(x, other, u) ==> !On(x, list, s) && !On(x, head, t);
    ListSpliceInit(list, head, s, t);
  }

  // ---------------------------------------------------------------- safe iteration

  /** The entries of s that are not in `drop`, in order. */
  ghost function Kept(s: seq<ListHead>, drop: set<ListHead>): seq<ListHead> {
    if s == [] then [] else (if s[0] in drop then [] else [s[0]]) + Kept(s[1..], drop)
  }

  ghost predicate AllAlone(xs: set<ListHead>)
    reads xs
  {
    forall x :: x in xs ==> IsList(x, [])
  }

  /** The iteration so far: entries already passed and kept, then those to come;
      the entries unlinked so far are not on the list any more. */
  ghost predicate Walking(head: ListHead, s: seq<ListHead>, drop: set<ListHead>,
                          done: seq<ListHead>, rest: seq<ListHead>, kept: seq<ListHead>, gone: set<ListHead>) {
    && s == done + rest && kept + Kept(rest, drop) == Kept(s, drop)
    && (forall x :: x in kept ==> x in s)
    && (forall x :: x in done && x in drop ==> x in gone)
    && (forall x :: x in gone ==> x != head && x !in kept && x !in rest)
  }

  /** The pointers of the next entry lead to entries of the remaining list. */
  lemma NextInLine(head: ListHead, s: seq<ListHead>, drop: set<ListHead>,
                   done: seq<ListHead>, rest: seq<ListHead>, kept: seq<ListHead>, gone: set<ListHead>)
    requires Walking(head, s, drop, done, rest, kept, gone) && rest != [] && IsList(head, kept + rest)
    ensures Distinct(head, kept + rest)
    ensures var x := rest[0];
      && x.next == (if rest[1..] == [] then head else rest[1..][0])
      && x in s && x !in gone
      && (x.prev == head || x.prev in s) && x.prev !in gone
      && (x.next == head || x.next in s) && x.next !in gone
  {
    hide Kept;
    var l, x := kept + rest, rest[0];
    assert l[|kept|] == x;
    Neighbours(head, l, |kept|);
    assert On(x, head, l) && On(x.prev, head, l) && On(x.next, head, l);
  }

  lemma StepWalk(head: ListHead, s: seq<ListHead>, drop: set<ListHead>,
                 done: seq<ListHead>, rest: seq<ListHead>, kept: seq<ListHead>, gone: set<ListHead>)
    requires Walking(head, s, drop, done, rest, kept, gone) && rest != [] && Distinct(head, kept + rest)
    ensures var x := rest[0];
      Walking(head, s, drop, done + [x], rest[1..], kept + (if x in drop then [] else [x]),
              if x in drop then gone + {x} else gone)
  {
    var x, l := rest[0], kept + rest;
    assert rest == [x] + rest[1..];
    assert done + rest == (done + [x]) + rest[1..];
    assert kept + ([x] + Kept(rest[1..], drop)) == (kept + [x]) + Kept(rest[1..], drop);
    assert kept + ([] + Kept(rest[1..], drop)) == kept + Kept(rest[1..], drop);
    assert l[|kept|] == x;
    assert forall i :: 0 <= i < |kept| ==> l[i] == kept[i];
    assert forall i :: 0 <= i < |rest[1..]| ==> l[|kept| + 1 + i] == rest[1..][i];
  }

  /** The loop body: unlink the visited entry if it is to be dropped. */
  method VisitEntry(pos: ListHead, drop: set<ListHead>, ghost head: ListHead,
                    ghost rest: seq<ListHead>, ghost kept: seq<ListHead>)
    returns (ghost kept': seq<ListHead>)
    requires rest != [] && rest[0] == pos && IsList(head, kept + rest)
    modifies if pos in drop then {pos, pos.prev, pos.next} else {}
    ensures kept' == kept + (if pos in drop then [] else [pos])
    ensures IsList(head, kept' + rest[1..])
    ensures pos in drop ==> IsList(pos, []) && !On(pos, head, kept' + rest[1..])
  {
    ghost var l := kept + rest;
    assert l[|kept|] == pos;
    kept' := kept;
    if pos in drop {
      assert Remove(l, |kept|) == kept + rest[1..];
      ListDelInit(pos, head, l, |kept|);
    } else {
      kept' := kept + [pos];
      assert kept' + rest[1..] == l;
    }
  }

  /** list_for_each_safe with a body that unlinks some of the entries it visits: because the
      successor is read before the body runs, every entry is visited exactly once, in order. */
  method ForEachSafeDelete(head: ListHead, drop: set<ListHead>, ghost s: seq<ListHead>) returns (visited: seq<ListHead>)
    requires IsList(head, s)
    modifies head, s
    ensures visited == s
    ensures IsList(head, Kept(s, drop))
    ensures forall x :: x in s && x in drop ==> IsList(x, [])
  {
    hide IsList, Distinct, Linked, At, Succ, Kept, On, Walking;
    visited := [];
    ghost var rest, kept: seq<ListHead>, gone: set<ListHead> := s, [], {};
    Ends(head, s);
    assert [] + s == s && [] + Kept(s, drop) == Kept(s, drop);
    StartWalk(head, s, drop);
    var pos := head.next;
    var n := pos.next;
    while pos != head
      invariant Walking(head, s, drop, visited, rest, kept, gone)
      invariant IsList(head, kept + rest) && AllAlone(gone)
      invariant pos == if rest == [] then head else rest[0]
      invariant n == pos.next
      decreases |rest|
    {
      NextInLine(head, s, drop, visited, rest, kept, gone);
      StepWalk(head, s, drop, visited, rest, kept, gone);
      kept := VisitEntry(pos, drop, head, rest, kept);
      visited := visited + [pos];
      gone := if pos in drop then gone + {pos} else gone;
      rest := rest[1..];
      pos := n;
      n := pos.next;
    }
    EndWalk(head, s, drop, visited, rest, kept, gone);
  }

  lemma StartWalk(head: ListHead, s: seq<ListHead>, drop: set<ListHead>)
    ensures Walking(head, s, drop, [], s, [], {})
    ensures s != [] ==> At(head, s, Succ(s, 0)) == s[0]
    ensures s == [] ==> At(head, s, Succ(s, 0)) == head
  {
  }

  lemma EndWalk(head: ListHead, s: seq<ListHead>, drop: set<ListHead>,
                done: seq<ListHead>, rest: seq<ListHead>, kept: seq<ListHead>, gone: set<ListHead>)
    requires Walking(head, s, drop, done, rest, kept, gone) && IsList(head, kept + rest)
    requires head == if rest == [] then head else rest[0]
    ensures done == s && kept + rest == Kept(s, drop)
    ensures forall x :: x in s && x in drop ==> x in gone
  {
    assert forall x :: x in rest ==> x in kept + rest;
  }
}
