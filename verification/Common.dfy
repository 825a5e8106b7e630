/** Shared wrappers and the few sequence operations the models have in common. */
module Common {

  datatype Option<+T> = None | Some(value: T)

  datatype Unit = Unit

  /** `Vec::last` and the prefix before it. */
  function Last<T>(s: seq<T>): T
    requires s != []
  {
    s[|s| - 1]
  }

  function Init<T>(s: seq<T>): seq<T>
    requires s != []
  {
    s[..|s| - 1]
  }

  ghost predicate NoDup<T>(s: seq<T>) {
    forall i, j :: 0 <= i < j < |s| ==> s[i] != s[j]
  }

  /** The order-preserving filters behind `retain` and `filter().collect()`. */
  function Keep(s: seq<nat>, xs: seq<nat>): (r: seq<nat>)
    ensures forall x :: x in r <==> x in s && x in xs
  {
    if s == [] then []
    else if Last(s) in xs then Keep(Init(s), xs) + [Last(s)]
    else Keep(Init(s), xs)
  }

  function Drop(s: seq<nat>, xs: seq<nat>): (r: seq<nat>)
    ensures forall x :: x in r <==> x in s && x !in xs
    ensures |r| <= |s|
  {
    if s == [] then []
    else if Last(s) in xs then Drop(Init(s), xs)
    else Drop(Init(s), xs) + [Last(s)]
  }

  lemma {:induction false} KeepNoDup(s: seq<nat>, xs: seq<nat>)
    requires NoDup(s)
    ensures NoDup(Keep(s, xs))
  {
    if s != [] {
      KeepNoDup(Init(s), xs);
    }
  }

  lemma {:induction false} DropNoDup(s: seq<nat>, xs: seq<nat>)
    requires NoDup(s)
    ensures NoDup(Drop(s, xs))
  {
    if s != [] {
      DropNoDup(Init(s), xs);
    }
  }

  lemma NoDupConcat<T>(a: seq<T>, b: seq<T>)
    requires NoDup(a) && NoDup(b) && forall x | x in b :: x !in a
    ensures NoDup(a + b)
  {
    var s := a + b;
    forall i, j | 0 <= i < j < |s| ensures s[i] != s[j] {
      if i < |a| <= j {
        assert b[j - |a|] in b && a[i] in a;
      }
    }
  }

  /** `Keep` and `Drop` look only at which elements of `s` the second list contains. */
  lemma {:induction false} KeepSame(s: seq<nat>, xs: seq<nat>, ys: seq<nat>)
    requires forall x | x in s :: x in xs <==> x in ys
    ensures Keep(s, xs) == Keep(s, ys)
  {
    if s != [] {
      KeepSame(Init(s), xs, ys);
    }
  }

  /** A prefix of a filtered list is the same list filtered by that prefix. */
  lemma {:induction false} KeepPrefix(s: seq<nat>, xs: seq<nat>, k: nat)
    requires NoDup(s) && k <= |Keep(s, xs)|
    ensures Keep(s, Keep(s, xs)[..k]) == Keep(s, xs)[..k]
  {
    if s != [] {
      var front := Keep(Init(s), xs);
      if k <= |front| {
        assert Keep(s, xs)[..k] == front[..k];
        KeepPrefix(Init(s), xs, k);
        assert Last(s) !in Init(s);
        assert forall x | x in front[..k] :: x in front;
      } else {
        var all := front + [Last(s)];
        assert Keep(s, xs)[..k] == all;
        KeepPrefix(Init(s), xs, |front|);
        assert front[..|front|] == front;
        KeepSame(Init(s), front, all);
      }
    }
  }

  lemma FilterMore(s: seq<nat>, x: nat, xs: seq<nat>)
    ensures Keep(s + [x], xs) == if x in xs then Keep(s, xs) + [x] else Keep(s, xs)
    ensures Drop(s + [x], xs) == if x in xs then Drop(s, xs) else Drop(s, xs) + [x]
  {
    assert Init(s + [x]) == s;
  }

  /** Dropping what a filter would keep first leaves the rest of the filtered list. */
  lemma {:induction false} KeepAfterDrop(s: seq<nat>, xs: seq<nat>, k: nat)
    requires NoDup(s) && k <= |Keep(s, xs)|
    ensures Keep(Drop(s, Keep(s, xs)[..k]), xs) == Keep(s, xs)[k..]
    decreases |s|, 1
  {
    if s != [] {
      KeepAfterDropMore(Init(s), Last(s), xs, k);
      assert s == Init(s) + [Last(s)];
    }
  }

  lemma {:induction false} KeepAfterDropMore(s: seq<nat>, x: nat, xs: seq<nat>, k: nat)
    requires NoDup(s + [x]) && k <= |Keep(s + [x], xs)|
    ensures Keep(Drop(s + [x], Keep(s + [x], xs)[..k]), xs) == Keep(s + [x], xs)[k..]
    decreases |s| + 1, 0
  {
    hide Keep, Drop;
    var front := Keep(s, xs);
    assert NoDup(s) && x !in s by { NoDupFront(s, x); }
    FilterMore(s, x, xs);
    if k <= |front| {
      assert Keep(s + [x], xs)[..k] == front[..k];
      KeepAfterDrop(s, xs, k);
      assert forall y | y in front[..k] :: y in front;
      FilterMore(s, x, front[..k]);
      FilterMore(Drop(s, front[..k]), x, xs);
    } else {
      var all := front + [x];
      assert Keep(s + [x], xs)[..k] == all;
      KeepAfterDrop(s, xs, |front|);
      assert front[..|front|] == front;
      DropSame(s, front, all);
      FilterMore(s, x, all);
    }
  }

  lemma NoDupFront(s: seq<nat>, x: nat)
    requires NoDup(s + [x])
    ensures NoDup(s) && x !in s
  {
    var all := s + [x];
    assert all[|s|] == x && forall i | 0 <= i < |s| :: all[i] == s[i];
  }

  lemma {:induction false} DropSame(s: seq<nat>, xs: seq<nat>, ys: seq<nat>)
    requires forall x | x in s :: x in xs <==> x in ys
    ensures Drop(s, xs) == Drop(s, ys)
  {
    if s != [] {
      DropSame(Init(s), xs, ys);
    }
  }

  lemma KeepRemainder(s: seq<nat>, xs: seq<nat>, k: nat, ys: seq<nat>)
    requires NoDup(s) && xs == Keep(s, xs) && k <= |xs|
    requires ys == Keep(Drop(s, xs[..k]), ys)
    requires forall x | x in Drop(s, xs[..k]) :: x in xs <==> x in ys
    ensures ys == xs[k..]
  {
    KeepAfterDrop(s, xs, k);
    KeepSame(Drop(s, xs[..k]), xs, ys);
  }

  function Members(s: seq<nat>): set<nat> {
    set x | x in s
  }

  lemma {:induction false} NoDupSetSize(s: seq<nat>)
    ensures |Members(s)| == |s| <==> NoDup(s)
    ensures |Members(s)| <= |s|
  {
    if s != [] {
      var t, x := Init(s), Last(s);
      NoDupSetSize(t);
      assert s == t + [x];
      var all, front := Members(s), Members(t);
      assert all == front + {x};
      if x in t {
        assert all == front;
        var i :| 0 <= i < |t| && t[i] == x;
        assert s[i] == s[|s| - 1];
      } else {
        assert |all| == |front| + 1;
        assert NoDup(s) <==> NoDup(t) by {
          if !NoDup(t) {
            var i, j :| 0 <= i < j < |t| && t[i] == t[j];
            assert s[i] == s[j];
          }
        }
      }
    }
  }

  /** The components between slashes; always at least one. */
  function Split(s: string): (r: seq<string>)
    ensures r != []
    ensures forall t | t in r :: '/' !in t
  {
    if s == [] then [[]]
    else
      var front := Split(Init(s));
      if Last(s) == '/' then front + [[]]
      else Init(front) + [Last(front) + [Last(s)]]
  }
}
