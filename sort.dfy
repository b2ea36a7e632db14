/**
 * `Object.values(data.messages).sort((a, b) => a.updatedAt.localeCompare(b.updatedAt))`:
 * a stable ascending sort of the messages by their `updatedAt` timestamp.
 */
module StableSort {
  import opened Orpg
  import opened Ordering

  /**
   * Message `m` may precede message `n`: its timestamp sorts no later. Any two messages
   * compare one way or the other, and they compare both ways exactly when their
   * timestamps are equal.
   */
  predicate NotAfter(m: Message, n: Message)
    ensures NotAfter(m, n) || LexLe(n.updatedAt, m.updatedAt)
    ensures m.updatedAt == n.updatedAt ==> NotAfter(m, n)
    ensures NotAfter(m, n) && LexLe(n.updatedAt, m.updatedAt) ==> m.updatedAt == n.updatedAt
  {
    LexLeTotal(m.updatedAt, n.updatedAt);
    LexLeTie(m.updatedAt, n.updatedAt);
    LexLe(m.updatedAt, n.updatedAt)
  }

  /** Non-decreasing by timestamp. */
  ghost predicate Sorted(s: seq<Message>) {
    forall i, j :: 0 <= i < j < |s| ==> NotAfter(s[i], s[j])
  }

  /** The messages of `s` stamped `stamp`, in the order `s` has them. */
  function WithStamp(s: seq<Message>, stamp: string): seq<Message> {
    if s == [] then []
    else (if s[0].updatedAt == stamp then [s[0]] else []) + WithStamp(s[1..], stamp)
  }

  /** A stable sort of `s`: sorted, and every timestamp's messages keep their relative order. */
  ghost predicate IsStableSortOf(t: seq<Message>, s: seq<Message>) {
    Sorted(t) && forall stamp :: WithStamp(t, stamp) == WithStamp(s, stamp)
  }

  /** Insert `x` into `p` after every message whose timestamp is not later than its own. */
  function Insert(p: seq<Message>, x: Message): (r: seq<Message>)
    ensures multiset(r) == multiset(p) + multiset{x}
    ensures |r| == |p| + 1
  {
    if p == [] then [x]
    else if NotAfter(p[|p| - 1], x) then p + [x]
    else
      assert p == p[..|p| - 1] + [p[|p| - 1]];
      Insert(p[..|p| - 1], x) + [p[|p| - 1]]
  }

  /** The result of the stable sort, as an insertion sort from left to right. */
  function Sort(s: seq<Message>): (r: seq<Message>)
    ensures multiset(r) == multiset(s)
    ensures |r| == |s|
  {
    if s == [] then []
    else
      assert s == s[..|s| - 1] + [s[|s| - 1]];
      Insert(Sort(s[..|s| - 1]), s[|s| - 1])
  }

  lemma SortedAppend(q: seq<Message>, l: Message)
    requires Sorted(q)
    requires forall i :: 0 <= i < |q| ==> NotAfter(q[i], l)
    ensures Sorted(q + [l])
  {
  }

  lemma {:induction false} InsertSorted(p: seq<Message>, x: Message)
    requires Sorted(p)
    ensures Sorted(Insert(p, x))
    decreases |p|
  {
    if p == [] {
    } else {
      var front, last := p[..|p| - 1], p[|p| - 1];
      if NotAfter(last, x) {
        forall i | 0 <= i < |p|
          ensures NotAfter(p[i], x)
        {
          if i < |p| - 1 {
            LexLeTransitive(p[i].updatedAt, last.updatedAt, x.updatedAt);
          } else {
            LexLeReflexive(x.updatedAt);
          }
        }
        SortedAppend(p, x);
      } else {
        LexLeTotal(last.updatedAt, x.updatedAt);
        InsertSorted(front, x);
        var q := Insert(front, x);
        forall i | 0 <= i < |q|
          ensures NotAfter(q[i], last)
        {
          assert q[i] in multiset(q);
          if q[i] != x {
            var k :| 0 <= k < |front| && front[k] == q[i];
          }
        }
        SortedAppend(q, last);
      }
    }
  }

  /** The sort's result is non-decreasing by `updatedAt`. */
  lemma {:induction false} SortIsSorted(s: seq<Message>)
    ensures Sorted(Sort(s))
    decreases |s|
  {
    if s != [] {
      SortIsSorted(s[..|s| - 1]);
      InsertSorted(Sort(s[..|s| - 1]), s[|s| - 1]);
    }
  }

  lemma {:induction false} WithStampAppend(a: seq<Message>, b: seq<Message>, stamp: string)
    ensures WithStamp(a + b, stamp) == WithStamp(a, stamp) + WithStamp(b, stamp)
    decreases |a|
  {
    if a == [] {
      assert a + b == b;
    } else {
      assert (a + b)[0] == a[0] && (a + b)[1..] == a[1..] + b;
      WithStampAppend(a[1..], b, stamp);
    }
  }

  lemma {:induction false} InsertWithStamp(p: seq<Message>, x: Message, stamp: string)
    ensures WithStamp(Insert(p, x), stamp) == WithStamp(p, stamp) + WithStamp([x], stamp)
    decreases |p|
  {
    if p == [] {
    } else {
      var front, last := p[..|p| - 1], p[|p| - 1];
      assert p == front + [last];
      if NotAfter(last, x) {
        WithStampAppend(p, [x], stamp);
      } else {
        LexLeReflexive(x.updatedAt);
        assert last.updatedAt != x.updatedAt;
        InsertWithStamp(front, x, stamp);
        WithStampAppend(Insert(front, x), [last], stamp);
        WithStampAppend(front, [last], stamp);
      }
    }
  }

  /** The sort is stable: for every timestamp, its messages keep their input order. */
  lemma {:induction false} SortIsStable(s: seq<Message>, stamp: string)
    ensures WithStamp(Sort(s), stamp) == WithStamp(s, stamp)
    decreases |s|
  {
    if s != [] {
      var front, last := s[..|s| - 1], s[|s| - 1];
      assert s == front + [last];
      SortIsStable(front, stamp);
      InsertWithStamp(Sort(front), last, stamp);
      WithStampAppend(front, [last], stamp);
    }
  }

  /** `Sort` meets the definition of a stable sort. */
  lemma SortIsStableSort(s: seq<Message>)
    ensures IsStableSortOf(Sort(s), s)
  {
    SortIsSorted(s);
    forall stamp
      ensures WithStamp(Sort(s), stamp) == WithStamp(s, stamp)
    {
      SortIsStable(s, stamp);
    }
  }

  lemma {:induction false} WithStampMember(s: seq<Message>, stamp: string, m: Message)
    ensures m in WithStamp(s, stamp) <==> m in s && m.updatedAt == stamp
    decreases |s|
  {
    if s != [] {
      WithStampMember(s[1..], stamp, m);
      assert s == [s[0]] + s[1..];
    }
  }

  /** In a sorted sequence no message is stamped later than the last one. */
  lemma SortedLastIsLatest(t: seq<Message>, m: Message)
    requires Sorted(t) && m in t
    ensures NotAfter(m, t[|t| - 1])
  {
    var i :| 0 <= i < |t| && t[i] == m;
    if i == |t| - 1 {
      LexLeReflexive(m.updatedAt);
    }
  }

  /** Sorted sequences that agree on every timestamp end in messages with the same timestamp. */
  lemma LastStampsAgree(t: seq<Message>, u: seq<Message>)
    requires Sorted(t) && Sorted(u) && t != [] && u != []
    requires forall stamp :: WithStamp(t, stamp) == WithStamp(u, stamp)
    ensures t[|t| - 1].updatedAt == u[|u| - 1].updatedAt
  {
    var x, y := t[|t| - 1], u[|u| - 1];
    WithStampMember(t, x.updatedAt, x);
    WithStampMember(u, x.updatedAt, x);
    SortedLastIsLatest(u, x);
    WithStampMember(u, y.updatedAt, y);
    WithStampMember(t, y.updatedAt, y);
    SortedLastIsLatest(t, y);
    LexLeAntisymmetric(x.updatedAt, y.updatedAt);
  }

  /** Removing equally stamped last messages keeps the agreement, and those messages are equal. */
  lemma FrontsAgree(tf: seq<Message>, x: Message, uf: seq<Message>, y: Message, stamp: string)
    requires x.updatedAt == y.updatedAt
    requires WithStamp(tf + [x], stamp) == WithStamp(uf + [y], stamp)
    requires WithStamp(tf + [x], x.updatedAt) == WithStamp(uf + [y], x.updatedAt)
    ensures x == y
    ensures WithStamp(tf, stamp) == WithStamp(uf, stamp)
  {
    assert [x][1..] == [] && [y][1..] == [];
    assert WithStamp([x], x.updatedAt) == [x] && WithStamp([y], x.updatedAt) == [y];
    WithStampAppend(tf, [x], x.updatedAt);
    WithStampAppend(uf, [y], x.updatedAt);
    var a, b := WithStamp(tf, x.updatedAt), WithStamp(uf, x.updatedAt);
    assert a + [x] == b + [y];
    assert a == (a + [x])[..|a|] && b == (b + [y])[..|b|];
    WithStampAppend(tf, [x], stamp);
    WithStampAppend(uf, [y], stamp);
    if stamp != x.updatedAt {
      assert WithStamp([x], stamp) == [] && WithStamp([y], stamp) == [];
      assert WithStamp(tf, stamp) + [] == WithStamp(tf, stamp);
      assert WithStamp(uf, stamp) + [] == WithStamp(uf, stamp);
    }
  }

  /** Two sorted sequences that agree on every timestamp's subsequence are equal. */
  lemma {:induction false} SortedAgreementIsEquality(t: seq<Message>, u: seq<Message>)
    requires Sorted(t) && Sorted(u)
    requires forall stamp :: WithStamp(t, stamp) == WithStamp(u, stamp)
    ensures t == u
    decreases |t| + |u|
  {
    if t == [] || u == [] {
      if t != [] {
        assert WithStamp(u, t[0].updatedAt) == [];
        WithStampMember(t, t[0].updatedAt, t[0]);
      } else if u != [] {
        assert WithStamp(t, u[0].updatedAt) == [];
        WithStampMember(u, u[0].updatedAt, u[0]);
      }
    } else {
      var tf, x := t[..|t| - 1], t[|t| - 1];
      var uf, y := u[..|u| - 1], u[|u| - 1];
      assert t == tf + [x] && u == uf + [y];
      LastStampsAgree(t, u);
      forall stamp
        ensures WithStamp(tf, stamp) == WithStamp(uf, stamp)
      {
        FrontsAgree(tf, x, uf, y, stamp);
      }
      FrontsAgree(tf, x, uf, y, x.updatedAt);
      SortedAgreementIsEquality(tf, uf);
    }
  }

  /** The stable sort is unique: any stable sort of `s` is `Sort(s)`. */
  lemma StableSortIsUnique(s: seq<Message>, t: seq<Message>)
    requires IsStableSortOf(t, s)
    ensures t == Sort(s)
  {
    SortIsStableSort(s);
    SortedAgreementIsEquality(t, Sort(s));
  }

  /** One step of the inner loop: moving `x` left past a later-stamped message. */
  lemma InsertShift(p: seq<Message>, j: nat, x: Message)
    requires 0 < j <= |p| && !NotAfter(p[j - 1], x)
    ensures Insert(p[..j], x) + p[j..] == Insert(p[..j - 1], x) + p[j - 1..]
  {
    assert p[..j][..j - 1] == p[..j - 1];
    assert p[j - 1..] == [p[j - 1]] + p[j..];
  }

  /** The swap of one step of the inner loop, on the whole array's contents. */
  lemma SwapLeft(s: seq<Message>, p: seq<Message>, x: Message, rest: seq<Message>, j: nat)
    requires 0 < j <= |p| && s == p[..j] + [x] + p[j..] + rest
    ensures s[j - 1 := x][j := p[j - 1]] == p[..j - 1] + [x] + p[j - 1..] + rest
  {
    var t := p[..j - 1] + [x] + p[j - 1..] + rest;
    forall k | 0 <= k < |s|
      ensures s[j - 1 := x][j := p[j - 1]][k] == t[k]
    {
      if k < j - 1 {
      } else if k == j - 1 || k == j {
      } else if k <= |p| {
        assert s[k] == p[k - 1];
      } else {
        assert s[k] == rest[k - |p| - 1];
      }
    }
  }

  /** Where the inner loop stops, `x` goes in place. */
  lemma InsertStop(p: seq<Message>, j: nat, x: Message)
    requires j <= |p| && (j == 0 || NotAfter(p[j - 1], x))
    ensures Insert(p[..j], x) == p[..j] + [x]
  {
    if j > 0 {
      assert p[..j][j - 1] == p[j - 1];
    }
  }

  /**
   * The inner loop of the insertion sort: the sorted prefix `a[..i]` takes `a[i]` in,
   * moving it left past the messages stamped strictly later.
   */
  method InsertLast(a: array<Message>, i: nat)
    requires i < a.Length
    modifies a
    ensures a[..] == Insert(old(a[..i]), old(a[i])) + old(a[i + 1..])
  {
    ghost var p, x, rest := a[..i], a[i], a[i + 1..];
    var j := i;
    assert p[..j] == p && p[j..] == [];
    assert a[..] == a[..i] + [a[i]] + a[i + 1..];
    while j > 0 && !NotAfter(a[j - 1], a[j])
      invariant 0 <= j <= i
      invariant a[..] == p[..j] + [x] + p[j..] + rest
      invariant Insert(p, x) == Insert(p[..j], x) + p[j..]
    {
      ghost var s := a[..];
      assert s[j] == x && s[j - 1] == p[j - 1];
      InsertShift(p, j, x);
      SwapLeft(s, p, x, rest, j);
      a[j - 1], a[j] := a[j], a[j - 1];
      assert a[..] == s[j - 1 := x][j := p[j - 1]];
      j := j - 1;
    }
    assert a[..][j] == x;
    InsertStop(p, j, x);
  }

  /**
   * `Array.prototype.sort` with the timestamp comparator, in place: an insertion sort
   * that moves each message left past the messages stamped strictly later.
   */
  method SortByUpdatedAt(a: array<Message>)
    modifies a
    ensures a[..] == Sort(old(a[..]))
  {
    ghost var input := a[..];
    for i := 0 to a.Length
      invariant a[..] == Sort(input[..i]) + input[i..]
    {
      SortStep(input, i);
      SplitAt(Sort(input[..i]), input[i..]);
      InsertLast(a, i);
    }
    assert input[..a.Length] == input;
  }

  /** One turn of the outer loop: the sort of one more message inserts it. */
  lemma SortStep(input: seq<Message>, i: nat)
    requires i < |input|
    ensures Sort(input[..i + 1]) == Insert(Sort(input[..i]), input[i])
  {
    assert input[..i + 1][..i] == input[..i];
  }

  /** Indexing the array's contents around the boundary of the sorted prefix. */
  lemma SplitAt(done: seq<Message>, rest: seq<Message>)
    requires rest != []
    ensures (done + rest)[..|done|] == done
    ensures (done + rest)[|done|] == rest[0]
    ensures (done + rest)[|done| + 1..] == rest[1..]
  {
  }
}
