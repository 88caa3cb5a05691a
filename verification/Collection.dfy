/**
 Collecting keyed items from a list that stops at the first unusable entry or conflict, and why the outcome does not
 depend on the order of the list. Firmware discovery instantiates this twice.
 */
module Collection {
  import opened Common
  import opened Bytes
  import Permutations

  /** `group` must agree between all items; an optional text must agree between all items that have it. */
  datatype Item<+R> = Item(key: nat, group: nat, content: R, first: Option<seq<Byte>>, second: Option<seq<Byte>>)

  datatype Entry<+R> = Bad | Skip | Good(item: Item<R>)

  datatype Summary<R> = Summary(table: map<nat, R>, group: Option<nat>, first: Option<seq<Byte>>,
                                second: Option<seq<Byte>>)

  predicate Agree<T(==)>(a: Option<T>, b: Option<T>) { a.Some? && b.Some? ==> a == b }

  predicate Fits<R>(s: Summary<R>, x: Item<R>)
  {
    x.key !in s.table && Agree(s.group, Some(x.group)) && Agree(s.first, x.first) && Agree(s.second, x.second)
  }

  function Or<T>(a: Option<T>, b: Option<T>): Option<T> { if b.Some? then b else a }

  function Extend<R>(s: Summary<R>, x: Item<R>): Summary<R>
  {
    Summary(s.table[x.key := x.content], Some(x.group), Or(s.first, x.first), Or(s.second, x.second))
  }

  function Nothing<R>(): Summary<R> { Summary(map[], None, None, None) }

  /** None as soon as an entry is bad or an item conflicts with an earlier one. */
  function Collect<R>(es: seq<Entry<R>>): Option<Summary<R>>
  {
    if es == [] then Some(Nothing())
    else
      var before := Collect(es[..|es| - 1]);
      if before.None? then None else Visit(before.value, es[|es| - 1])
  }

  function Visit<R>(s: Summary<R>, e: Entry<R>): Option<Summary<R>>
  {
    match e
    case Bad => None
    case Skip => Some(s)
    case Good(x) => if Fits(s, x) then Some(Extend(s, x)) else None
  }

  // ---------------------------------------------------------------- success without the order

  predicate Clash<R>(a: Entry<R>, b: Entry<R>)
  {
    && a.Good? && b.Good?
    && (a.item.key == b.item.key || a.item.group != b.item.group
        || !Agree(a.item.first, b.item.first) || !Agree(a.item.second, b.item.second))
  }

  ghost predicate Harmonious<R>(es: seq<Entry<R>>)
  {
    && Bad !in es
    && forall i, j :: 0 <= i < j < |es| ==> !Clash(es[i], es[j])
  }

  /** The summary says exactly what the items say. */
  ghost predicate Summarizes<R>(s: Summary<R>, es: seq<Entry<R>>)
  {
    && (forall e :: e in es && e.Good? ==>
          && e.item.key in s.table && s.table[e.item.key] == e.item.content && s.group == Some(e.item.group)
          && (e.item.first.Some? ==> s.first == e.item.first)
          && (e.item.second.Some? ==> s.second == e.item.second))
    && (forall k :: k in s.table ==> exists e :: e in es && e.Good? && e.item.key == k)
    && (s.group.Some? ==> exists e :: e in es && e.Good? && s.group == Some(e.item.group))
    && (s.first.Some? ==> exists e :: e in es && e.Good? && s.first == e.item.first)
    && (s.second.Some? ==> exists e :: e in es && e.Good? && s.second == e.item.second)
  }

  lemma HarmoniousSplit<R>(es: seq<Entry<R>>, e: Entry<R>)
    ensures Harmonious(es + [e]) <==> Harmonious(es) && !e.Bad? && forall x :: x in es ==> !Clash(x, e)
  {
    var all := es + [e];
    if Harmonious(all) {
      forall i, j | 0 <= i < j < |es| ensures !Clash(es[i], es[j]) { assert all[i] == es[i] && all[j] == es[j]; }
      forall x | x in es ensures !Clash(x, e) {
        var i :| 0 <= i < |es| && es[i] == x;
        assert all[i] == x && all[|es|] == e;
      }
      assert all[|es|] == e;
      assert Bad !in es by { forall x | x in es ensures x != Bad { assert x in all; } }
    }
  }

  /** An item fits exactly when it clashes with nothing summarized. */
  lemma FitsExactly<R>(s: Summary<R>, es: seq<Entry<R>>, x: Item<R>)
    requires Summarizes(s, es)
    ensures Fits(s, x) <==> forall e :: e in es ==> !Clash(e, Good(x))
  {
    if x.key in s.table {
      var e :| e in es && e.Good? && e.item.key == x.key;
      assert Clash(e, Good(x));
    }
    if s.group.Some? && s.group.value != x.group {
      var e :| e in es && e.Good? && s.group == Some(e.item.group);
      assert Clash(e, Good(x));
    }
    if !Agree(s.first, x.first) {
      var e :| e in es && e.Good? && s.first == e.item.first;
      assert Clash(e, Good(x));
    }
    if !Agree(s.second, x.second) {
      var e :| e in es && e.Good? && s.second == e.item.second;
      assert Clash(e, Good(x));
    }
  }

  lemma ExtendSummarizes<R>(s: Summary<R>, es: seq<Entry<R>>, x: Item<R>)
    requires Summarizes(s, es) && Fits(s, x)
    ensures Summarizes(Extend(s, x), es + [Good(x)])
  {
    var s', all := Extend(s, x), es + [Good(x)];
    assert all[|es|] == Good(x);
    forall e | e in es ensures e in all { }
    forall k | k in s'.table ensures exists e :: e in all && e.Good? && e.item.key == k {
      if k != x.key {
        var e :| e in es && e.Good? && e.item.key == k;
        assert e in all;
      } else {
        assert Good(x) in all;
      }
    }
    if x.first.None? && s.first.Some? {
      var e :| e in es && e.Good? && s.first == e.item.first;
      assert e in all;
    }
    if x.second.None? && s.second.Some? {
      var e :| e in es && e.Good? && s.second == e.item.second;
      assert e in all;
    }
  }

  lemma SkipSummarizes<R>(s: Summary<R>, es: seq<Entry<R>>)
    requires Summarizes(s, es)
    ensures Summarizes(s, es + [Skip])
  {
    var all := es + [Skip];
    forall e | e in es ensures e in all { }
    forall k | k in s.table ensures exists e :: e in all && e.Good? && e.item.key == k {
      var e :| e in es && e.Good? && e.item.key == k;
      assert e in all;
    }
  }

  /** Collecting succeeds exactly on harmonious lists, with their summary. */
  lemma {:induction false} CollectExactly<R>(es: seq<Entry<R>>)
    ensures Collect(es).Some? <==> Harmonious(es)
    ensures Collect(es).Some? ==> Summarizes(Collect(es).value, es)
    decreases |es|
  {
    if es != [] {
      var (rest, e) := (es[..|es| - 1], es[|es| - 1]);
      assert es == rest + [e];
      CollectExactly(rest);
      HarmoniousSplit(rest, e);
      if Collect(rest).Some? {
        var s := Collect(rest).value;
        if e.Good? {
          FitsExactly(s, rest, e.item);
          if Fits(s, e.item) { ExtendSummarizes(s, rest, e.item); }
        }
        if e.Skip? { SkipSummarizes(s, rest); }
      }
    }
  }

  lemma SummaryUnique<R>(s: Summary<R>, s': Summary<R>, es: seq<Entry<R>>, es': seq<Entry<R>>)
    requires Summarizes(s, es) && Summarizes(s', es') && forall e :: e in es <==> e in es'
    ensures s == s'
  {
    forall k | k in s.table ensures k in s'.table && s'.table[k] == s.table[k] {
      var e :| e in es && e.Good? && e.item.key == k;
    }
    forall k | k in s'.table ensures k in s.table {
      var e :| e in es' && e.Good? && e.item.key == k;
    }
    assert s.table == s'.table;
  }

  lemma HarmonyPermutes<R>(es: seq<Entry<R>>, es': seq<Entry<R>>)
    requires multiset(es) == multiset(es') && Harmonious(es)
    ensures Harmonious(es')
  {
    Permutations.SameMembers(es, es');
    forall i, j | 0 <= i < j < |es'| ensures !Clash(es'[i], es'[j]) {
      var p, q := Permutations.TwoPositions(es, es', i, j);
      assert !Clash(es[if p < q then p else q], es[if p < q then q else p]);
    }
  }

  /** The order of the list does not matter: same success, same summary. */
  lemma CollectIgnoresOrder<R>(es: seq<Entry<R>>, es': seq<Entry<R>>)
    requires multiset(es) == multiset(es')
    ensures Collect(es) == Collect(es')
  {
    CollectExactly(es);
    CollectExactly(es');
    if Harmonious(es) { HarmonyPermutes(es, es'); }
    if Harmonious(es') { HarmonyPermutes(es', es); }
    if Collect(es).Some? {
      Permutations.SameMembers(es, es');
      SummaryUnique(Collect(es).value, Collect(es').value, es, es');
    }
  }
}
