/** An insertion-ordered dictionary keyed by strings: the behaviour of a Python
    `dict` that the archive relies on. `keys` lists the keys in the order they
    were first inserted; `items` holds each key's current value. */
module OrderedDict {
  import opened Wrappers

  datatype Dict<V> = Dict(keys: seq<string>, items: map<string, V>)

  predicate NoDuplicates(s: seq<string>)
  {
    forall i, j :: 0 <= i < j < |s| ==> s[i] != s[j]
  }

  /** Every key is listed exactly once, and the listed keys are the map's domain. */
  predicate Valid<V>(d: Dict<V>)
  {
    && NoDuplicates(d.keys)
    && (forall k :: k in d.keys ==> k in d.items)
    && (forall k :: k in d.items ==> k in d.keys)
  }

  /** `d.get(k)`. */
  function Get<V>(d: Dict<V>, k: string): Option<V>
  {
    if k in d.items then Some(d.items[k]) else None
  }

  /** `{}`. */
  function Empty<V>(): (r: Dict<V>)
    ensures Valid(r)
    ensures r.keys == []
    ensures forall k :: Get(r, k) == None
  {
    Dict([], map[])
  }

  /** `d[k] = v`: a new key goes to the end, an existing key keeps its place. */
  function Put<V>(d: Dict<V>, k: string, v: V): (r: Dict<V>)
    ensures Get(r, k) == Some(v)
    ensures forall k' :: k' != k ==> Get(r, k') == Get(d, k')
    ensures Valid(d) ==> Valid(r)
    ensures Valid(d) && Get(d, k).Some? ==> r.keys == d.keys
    ensures Valid(d) && Get(d, k).None? ==> r.keys == d.keys + [k]
  {
    if k in d.items then Dict(d.keys, d.items[k := v])
    else Dict(d.keys + [k], d.items[k := v])
  }

  /** `s` with every occurrence of `k` taken out, the rest in their order. */
  function Without(s: seq<string>, k: string): (r: seq<string>)
    ensures forall x :: x in r <==> x in s && x != k
    ensures NoDuplicates(s) ==> NoDuplicates(r)
    ensures k !in s ==> r == s
    decreases |s|
  {
    if |s| == 0 then []
    else if s[0] == k then Without(s[1..], k)
    else
      NoDuplicatesCons(s);
      [s[0]] + Without(s[1..], k)
  }

  /** A list without duplicates is its head, not repeated, before a tail without duplicates. */
  lemma NoDuplicatesCons(s: seq<string>)
    requires |s| > 0
    ensures NoDuplicates(s) ==> s[0] !in s[1..] && NoDuplicates(s[1..])
    ensures forall t :: s[0] !in t && NoDuplicates(t) ==> NoDuplicates([s[0]] + t)
  {
    forall t | s[0] !in t && NoDuplicates(t)
      ensures NoDuplicates([s[0]] + t)
    {
      var u := [s[0]] + t;
      forall i, j | 0 <= i < j < |u|
        ensures u[i] != u[j]
      {
        assert u[j] == t[j - 1];
        if i > 0 {
          assert u[i] == t[i - 1];
        }
      }
    }
  }

  /** A list without duplicates is, without repeats, its init and then its last element. */
  lemma NoDuplicatesSnoc(s: seq<string>)
    requires |s| > 0 && NoDuplicates(s)
    ensures NoDuplicates(s[..|s| - 1]) && s[|s| - 1] !in s[..|s| - 1]
    ensures forall k :: k in s <==> k in s[..|s| - 1] || k == s[|s| - 1]
  {
    assert s == s[..|s| - 1] + [s[|s| - 1]];
  }

  /** Taking a key that occurs once out of a list closes the gap it leaves. */
  lemma {:induction false} WithoutAt(s: seq<string>, k: string, i: int)
    requires NoDuplicates(s)
    requires 0 <= i < |s| && s[i] == k
    ensures Without(s, k) == s[..i] + s[i + 1..]
    decreases i
  {
    NoDuplicatesCons(s);
    if i == 0 {
      assert Without(s, k) == Without(s[1..], k);
    } else {
      var t := s[1..];
      assert t[i - 1] == k;
      WithoutAt(t, k, i - 1);
      assert Without(s, k) == [s[0]] + (t[..i - 1] + t[i..]);
      SpliceCons(s, i);
    }
  }

  /** Closing the gap at position `i` of `s` commutes with taking off its head. */
  lemma SpliceCons(s: seq<string>, i: int)
    requires 0 < i < |s|
    ensures [s[0]] + (s[1..][..i - 1] + s[1..][i..]) == s[..i] + s[i + 1..]
  {
    assert s[1..][..i - 1] == s[1..i];
    assert s[1..][i..] == s[i + 1..];
    assert s[..i] == [s[0]] + s[1..i];
  }

  /** `if k in d: del d[k]`. */
  function Delete<V>(d: Dict<V>, k: string): (r: Dict<V>)
    ensures Get(r, k) == None
    ensures forall k' :: k' != k ==> Get(r, k') == Get(d, k')
    ensures Valid(d) ==> Valid(r)
    ensures Get(d, k) == None ==> r == d
    ensures Valid(d) ==> forall x :: x in r.keys <==> x in d.keys && x != k
  {
    if k in d.items then Dict(Without(d.keys, k), d.items - {k}) else d
  }

  /** Deleting a present key removes it from its place and keeps the others in order. */
  lemma DeleteKeepsOrder<V>(d: Dict<V>, k: string, i: int)
    requires Valid(d)
    requires 0 <= i < |d.keys| && d.keys[i] == k
    ensures Delete(d, k).keys == d.keys[..i] + d.keys[i + 1..]
  {
    WithoutAt(d.keys, k, i);
  }

  /** The keys of `ps`, in order. */
  function Names<V>(ps: seq<(string, V)>): (r: seq<string>)
  {
    seq(|ps|, i requires 0 <= i < |ps| => ps[i].0)
  }

  /** The position of the first pair whose key is `k`, or `|ps|` when there is none. */
  function FirstIndex<V>(ps: seq<(string, V)>, k: string): (i: nat)
    ensures i <= |ps|
    ensures i < |ps| ==> ps[i].0 == k
    ensures forall j :: 0 <= j < i ==> ps[j].0 != k
    decreases |ps|
  {
    if |ps| == 0 then 0
    else if ps[0].0 == k then 0
    else 1 + FirstIndex(ps[1..], k)
  }

  /** Each key is listed in the order of its first occurrence in `ps`. */
  predicate InFirstOccurrenceOrder<V>(ps: seq<(string, V)>, keys: seq<string>)
  {
    forall i, j :: 0 <= i < j < |keys| ==> FirstIndex(ps, keys[i]) < FirstIndex(ps, keys[j])
  }

  /** Each key holds the value of the last pair with that key. */
  ghost predicate HoldsLastValues<V>(ps: seq<(string, V)>, d: Dict<V>)
  {
    forall k :: k in d.items ==>
      exists j :: 0 <= j < |ps| && ps[j].0 == k && d.items[k] == ps[j].1 && NotAfter(ps, k, j)
  }

  /** No pair after position `j` has the key `k`. */
  ghost predicate NotAfter<V>(ps: seq<(string, V)>, k: string, j: nat)
  {
    forall j' :: j < j' < |ps| ==> ps[j'].0 != k
  }

  /** `dict(ps)`: later pairs overwrite earlier pairs with the same key, which
      keeps the place of its first occurrence. */
  function FromPairs<V>(ps: seq<(string, V)>): (r: Dict<V>)
    ensures Valid(r)
    ensures forall k :: Get(r, k).Some? <==> k in Names(ps)
    ensures InFirstOccurrenceOrder(ps, r.keys)
    ensures HoldsLastValues(ps, r)
    decreases |ps|
  {
    if |ps| == 0 then Empty()
    else
      var init := ps[..|ps| - 1];
      assert forall k :: k in Names(ps) <==> k in Names(init) || k == ps[|ps| - 1].0 by {
        assert Names(ps) == Names(init) + [ps[|ps| - 1].0];
      }
      var d := FromPairs(init);
      SnocKeepsOrder(ps, d);
      SnocLastValues(ps, d);
      Put(d, ps[|ps| - 1].0, ps[|ps| - 1].1)
  }

  /** Appending a pair keeps the first occurrence of every earlier key, and a
      new key occurs first at the end. */
  lemma SnocFirstIndex<V>(ps: seq<(string, V)>, k: string)
    requires |ps| > 0
    ensures k in Names(ps[..|ps| - 1]) ==> FirstIndex(ps, k) == FirstIndex(ps[..|ps| - 1], k) < |ps| - 1
    ensures k !in Names(ps[..|ps| - 1]) && k == ps[|ps| - 1].0 ==> FirstIndex(ps, k) == |ps| - 1
  {
    var init := ps[..|ps| - 1];
    var b := FirstIndex(init, k);
    assert forall j :: 0 <= j < |init| ==> Names(init)[j] == ps[j].0;
    if k in Names(init) {
      assert b < |init| && ps[b] == init[b];
    }
  }

  /** `Put` of the last pair keeps the keys of `FromPairs` of the others in
      first-occurrence order. */
  lemma SnocKeepsOrder<V>(ps: seq<(string, V)>, d: Dict<V>)
    requires |ps| > 0
    requires Valid(d) && InFirstOccurrenceOrder(ps[..|ps| - 1], d.keys)
    requires forall k :: Get(d, k).Some? <==> k in Names(ps[..|ps| - 1])
    ensures InFirstOccurrenceOrder(ps, Put(d, ps[|ps| - 1].0, ps[|ps| - 1].1).keys)
  {
    var init, last := ps[..|ps| - 1], ps[|ps| - 1];
    var keys := Put(d, last.0, last.1).keys;
    forall i | 0 <= i < |d.keys|
      ensures FirstIndex(ps, d.keys[i]) == FirstIndex(init, d.keys[i]) < |init|
    {
      assert Get(d, d.keys[i]).Some?;
      SnocFirstIndex(ps, d.keys[i]);
    }
    if last.0 !in d.items {
      SnocFirstIndex(ps, last.0);
      assert keys == d.keys + [last.0];
    }
  }

  /** `Put` of the last pair leaves every key of `FromPairs` holding the value
      of its last pair. */
  lemma SnocLastValues<V>(ps: seq<(string, V)>, d: Dict<V>)
    requires |ps| > 0
    requires HoldsLastValues(ps[..|ps| - 1], d)
    ensures HoldsLastValues(ps, Put(d, ps[|ps| - 1].0, ps[|ps| - 1].1))
  {
    var init, last := ps[..|ps| - 1], ps[|ps| - 1];
    var r := Put(d, last.0, last.1);
    forall k | k in r.items
      ensures exists j :: 0 <= j < |ps| && ps[j].0 == k && r.items[k] == ps[j].1 && NotAfter(ps, k, j)
    {
      if k == last.0 {
        assert NotAfter(ps, k, |ps| - 1);
      } else {
        var j :| 0 <= j < |init| && init[j].0 == k && d.items[k] == init[j].1 && NotAfter(init, k, j);
        assert ps[j] == init[j];
        assert NotAfter(ps, k, j);
      }
    }
  }

  /** The names of `ps` are those of all but its last pair, then the last
      pair's name; with distinct names, the last one is not among the others. */
  lemma NamesSnoc<V>(ps: seq<(string, V)>)
    requires |ps| > 0
    requires NoDuplicates(Names(ps))
    ensures Names(ps) == Names(ps[..|ps| - 1]) + [ps[|ps| - 1].0]
    ensures NoDuplicates(Names(ps[..|ps| - 1]))
    ensures ps[|ps| - 1].0 !in Names(ps[..|ps| - 1])
  {
    var init := ps[..|ps| - 1];
    assert Names(ps) == Names(init) + [ps[|ps| - 1].0];
    forall j | 0 <= j < |init|
      ensures Names(init)[j] == Names(ps)[j] && Names(init)[j] != ps[|ps| - 1].0
    {
      assert Names(ps)[j] != Names(ps)[|ps| - 1];
    }
  }

  /** With distinct keys, `dict(ps)` lists the keys of `ps` in order and maps
      each to its own value. */
  lemma {:induction false} FromDistinctPairs<V>(ps: seq<(string, V)>)
    requires NoDuplicates(Names(ps))
    ensures FromPairs(ps).keys == Names(ps)
    ensures forall i :: 0 <= i < |ps| ==> Get(FromPairs(ps), ps[i].0) == Some(ps[i].1)
    decreases |ps|
  {
    if |ps| > 0 {
      NamesSnoc(ps);
      FromDistinctPairs(ps[..|ps| - 1]);
      var init := ps[..|ps| - 1];
      assert forall i :: 0 <= i < |init| ==> init[i] == ps[i];
      PutDistinct(ps, FromPairs(init));
    }
  }

  /** Putting the last pair, under a new key, into a dict that lists the other
      keys in order with their values lists all keys in order with their values. */
  lemma PutDistinct<V>(ps: seq<(string, V)>, d: Dict<V>)
    requires |ps| > 0
    requires Names(ps) == Names(ps[..|ps| - 1]) + [ps[|ps| - 1].0]
    requires ps[|ps| - 1].0 !in Names(ps[..|ps| - 1])
    requires Valid(d) && d.keys == Names(ps[..|ps| - 1])
    requires forall i :: 0 <= i < |ps| - 1 ==> Get(d, ps[i].0) == Some(ps[i].1)
    ensures Put(d, ps[|ps| - 1].0, ps[|ps| - 1].1).keys == Names(ps)
    ensures forall i :: 0 <= i < |ps| ==> Get(Put(d, ps[|ps| - 1].0, ps[|ps| - 1].1), ps[i].0) == Some(ps[i].1)
  {
    var init, last := ps[..|ps| - 1], ps[|ps| - 1];
    assert Get(d, last.0).None?;
    forall i | 0 <= i < |ps| - 1
      ensures Get(Put(d, last.0, last.1), ps[i].0) == Some(ps[i].1)
    {
      assert Names(init)[i] == ps[i].0;
    }
  }

  /** Two well-formed dictionaries with the same key order and the same value
      under every key are the same dictionary. */
  lemma Extensionality<V>(a: Dict<V>, b: Dict<V>)
    requires Valid(a) && Valid(b)
    requires a.keys == b.keys
    requires forall i :: 0 <= i < |a.keys| ==> Get(a, a.keys[i]) == Get(b, a.keys[i])
    ensures a == b
  {
    forall k | k in a.items
      ensures k in b.items && a.items[k] == b.items[k]
    {
      var i :| 0 <= i < |a.keys| && a.keys[i] == k;
      assert Get(a, a.keys[i]) == Get(b, a.keys[i]);
    }
    assert a.items == b.items;
  }
}
