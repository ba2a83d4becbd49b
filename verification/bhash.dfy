/** The bucket hash of cutils/bhash.c.  A bucket ring is written as the list of its
    entries from the bucket head on. */
module BHash {
  import opened Bits
  import opened Seqs

  /** An entry of the table: the user's key and value, and the stored hash. */
  datatype Entry<K, V> = Entry(key: K, value: V, hash: nat)

  // ----- lists of buckets -----

  lemma FlatUpdate<T>(bs: seq<seq<T>>, b: nat, s: seq<T>)
    requires b < |bs|
    ensures multiset(Concat(bs[b := s])) + multiset(bs[b]) == multiset(Concat(bs)) + multiset(s)
    ensures |Concat(bs[b := s])| + |bs[b]| == |Concat(bs)| + |s|
  {
    hide Concat;
    var bs' := bs[b := s];
    ConcatAround(bs, b);
    ConcatAround(bs', b);
    assert bs'[..b] == bs[..b] && bs'[b + 1..] == bs[b + 1..];
    var f, g := Concat(bs[..b]), Concat(bs[b + 1..]);
    Parts(f, bs[b], g);
    Parts(f, s, g);
  }

  lemma Parts<T>(f: seq<T>, s: seq<T>, g: seq<T>)
    ensures multiset(f + s + g) == multiset(f) + multiset(s) + multiset(g)
  {
  }

  lemma {:induction false} FlatMember<T>(bs: seq<seq<T>>, x: T)
    ensures x in Concat(bs) <==> exists b :: 0 <= b < |bs| && x in bs[b]
  {
    if bs != [] {
      ConcatLast(bs);
      FlatMember(bs[..|bs| - 1], x);
    }
  }

  lemma {:induction false} FlatEmpty<T>(bs: seq<seq<T>>)
    requires forall b :: 0 <= b < |bs| ==> bs[b] == []
    ensures Concat(bs) == []
  {
    if bs != [] {
      ConcatLast(bs);
      FlatEmpty(bs[..|bs| - 1]);
    }
  }

  /** The entries of one key stand side by side. */
  ghost predicate Contiguous<K, V>(s: seq<Entry<K, V>>) {
    forall i, j, k :: 0 <= i < j < k < |s| && s[i].key == s[k].key ==> s[j].key == s[i].key
  }

  ghost predicate KeysUnique<K, V>(s: seq<Entry<K, V>>) {
    forall i, j :: 0 <= i < j < |s| ==> s[i].key != s[j].key
  }

  /** Every entry sits in the bucket that its stored hash masks to, and the stored
      hash is the one of its key. */
  ghost predicate InPlace<K(!new), V(!new)>(bs: seq<seq<Entry<K, V>>>, hashFunc: K -> nat) {
    forall b, e :: 0 <= b < |bs| && e in bs[b] ==> e.hash == hashFunc(e.key) && And(e.hash, |bs| - 1) == b
  }

  /** The table proper: entries in place, and each bucket without or with
      contiguous duplicates. */
  ghost predicate Table<K(!new), V(!new)>(bs: seq<seq<Entry<K, V>>>, hashFunc: K -> nat, multimap: bool) {
    && IsPow2(|bs|) && InPlace(bs, hashFunc)
    && (forall b :: 0 <= b < |bs| ==> Contiguous(bs[b]))
    && (!multimap ==> forall b :: 0 <= b < |bs| ==> KeysUnique(bs[b]))
  }

  // ----- moving all entries to new buckets -----

  /** What has been moved into bucket b of n, latest first, when the entries s were
      taken out one after the other. */
  function Moved<K, V>(s: seq<Entry<K, V>>, n: nat, b: nat): seq<Entry<K, V>>
    requires n > 0
  {
    if s == [] then []
    else
      var last := s[|s| - 1];
      var rest := Moved(s[..|s| - 1], n, b);
      if And(last.hash, n - 1) == b then [last] + rest else rest
  }

  lemma {:induction false} MovedMember<K, V>(s: seq<Entry<K, V>>, n: nat, b: nat, e: Entry<K, V>)
    requires n > 0
    ensures e in Moved(s, n, b) <==> e in s && And(e.hash, n - 1) == b
  {
    if s != [] {
      MovedMember(s[..|s| - 1], n, b, e);
      assert s == s[..|s| - 1] + [s[|s| - 1]];
    }
  }

  /** Moving keeps equal keys side by side, although it reverses the order: what
      separates two equal keys has their hash or stays out of their bucket. */
  lemma {:induction false} MovedContiguous<K, V>(s: seq<Entry<K, V>>, n: nat, b: nat)
    requires n > 0 && Contiguous(s)
    ensures Contiguous(Moved(s, n, b))
  {
    if s != [] {
      var m := |s| - 1;
      var s', last := s[..m], s[m];
      MovedContiguous(s', n, b);
      var t := Moved(s', n, b);
      if And(last.hash, n - 1) == b && t != [] {
        forall j, k | 0 <= j < k < |t| && t[k].key == last.key
          ensures t[j].key == last.key
        {
          MovedBefore(s', n, b, j, k);
          var p, q :| 0 <= p < q < m && s'[p] == t[k] && s'[q] == t[j];
          assert s[p].key == s[m].key;
        }
        var u := [last] + t;
        forall i, j, k | 0 <= i < j < k < |u| && u[i].key == u[k].key
          ensures u[j].key == u[i].key
        {
          if i == 0 {
            assert u[j] == t[j - 1] && u[k] == t[k - 1];
          } else {
            assert u[i] == t[i - 1] && u[j] == t[j - 1] && u[k] == t[k - 1];
          }
        }
      }
    }
  }

  /** Of two moved entries the one nearer the front was taken out later. */
  lemma {:induction false} MovedBefore<K, V>(s: seq<Entry<K, V>>, n: nat, b: nat, j: nat, k: nat)
    requires n > 0 && j < k < |Moved(s, n, b)|
    ensures exists p, q :: 0 <= p < q < |s| && s[p] == Moved(s, n, b)[k] && s[q] == Moved(s, n, b)[j]
  {
    var m := |s| - 1;
    var s', last := s[..m], s[m];
    var t := Moved(s', n, b);
    if And(last.hash, n - 1) == b {
      if j == 0 {
        MovedMember(s', n, b, t[k - 1]);
        var p :| 0 <= p < m && s'[p] == t[k - 1];
        assert 0 <= p < m < |s| && s[p] == Moved(s, n, b)[k] && s[m] == Moved(s, n, b)[j];
      } else {
        MovedBefore(s', n, b, j - 1, k - 1);
        var p, q :| 0 <= p < q < m && s'[p] == t[k - 1] && s'[q] == t[j - 1];
        assert 0 <= p < q < |s| && s[p] == Moved(s, n, b)[k] && s[q] == Moved(s, n, b)[j];
      }
    } else {
      MovedBefore(s', n, b, j, k);
      var p, q :| 0 <= p < q < m && s'[p] == t[k] && s'[q] == t[j];
      assert 0 <= p < q < |s| && s[p] == Moved(s, n, b)[k] && s[q] == Moved(s, n, b)[j];
    }
  }

  /** The concatenated buckets of a table keep equal keys side by side: equal keys
      have one hash and so one bucket. */
  lemma {:induction false} FlatContiguous<K(!new), V(!new)>(bs: seq<seq<Entry<K, V>>>, n: nat, hashFunc: K -> nat)
    requires n > 0
    requires forall b, e :: 0 <= b < |bs| && e in bs[b] ==> e.hash == hashFunc(e.key) && And(e.hash, n - 1) == b
    requires forall b :: 0 <= b < |bs| ==> Contiguous(bs[b])
    ensures Contiguous(Concat(bs))
  {
    if bs != [] {
      var m := |bs| - 1;
      var f, g := Concat(bs[..m]), bs[m];
      ConcatLast(bs);
      FlatContiguous(bs[..m], n, hashFunc);
      forall e | e in f
        ensures And(e.hash, n - 1) != m && e.hash == hashFunc(e.key)
      {
        FlatMember(bs[..m], e);
      }
      forall i, j, k | 0 <= i < j < k < |f + g| && (f + g)[i].key == (f + g)[k].key
        ensures (f + g)[j].key == (f + g)[i].key
      {
        var x, z := (f + g)[i], (f + g)[k];
        assert i < |f| ==> x in f;
        assert k >= |f| ==> z in bs[m];
        if i < |f| && k >= |f| {
          assert false;
        } else if k < |f| {
          assert f[i] == x && f[k] == z && f[j] == (f + g)[j];
        } else {
          assert g[i - |f|] == x && g[k - |f|] == z && g[j - |f|] == (f + g)[j];
        }
      }
    }
  }

  lemma {:induction false} UniqueFlat<K(!new), V(!new)>(bs: seq<seq<Entry<K, V>>>, n: nat, hashFunc: K -> nat)
    requires n > 0
    requires forall b, e :: 0 <= b < |bs| && e in bs[b] ==> e.hash == hashFunc(e.key) && And(e.hash, n - 1) == b
    requires forall b :: 0 <= b < |bs| ==> KeysUnique(bs[b])
    ensures KeysUnique(Concat(bs))
  {
    if bs != [] {
      var m := |bs| - 1;
      var f, g := Concat(bs[..m]), bs[m];
      ConcatLast(bs);
      UniqueFlat(bs[..m], n, hashFunc);
      forall e | e in f
        ensures And(e.hash, n - 1) != m && e.hash == hashFunc(e.key)
      {
        FlatMember(bs[..m], e);
      }
    }
  }

  lemma {:induction false} MovedUnique<K, V>(s: seq<Entry<K, V>>, n: nat, b: nat)
    requires n > 0 && KeysUnique(s)
    ensures KeysUnique(Moved(s, n, b))
  {
    if s != [] {
      var s', last := s[..|s| - 1], s[|s| - 1];
      MovedUnique(s', n, b);
      forall e | e in Moved(s', n, b)
        ensures e.key != last.key
      {
        MovedMember(s', n, b, e);
      }
    }
  }

  /** The new buckets together hold what was moved. */
  lemma {:induction false} FlatMoved<K, V>(s: seq<Entry<K, V>>, n: nat, bs: seq<seq<Entry<K, V>>>)
    requires n > 0 && |bs| == n && forall b :: 0 <= b < n ==> bs[b] == Moved(s, n, b)
    ensures multiset(Concat(bs)) == multiset(s) && |Concat(bs)| == |s|
  {
    hide Concat;
    if s == [] {
      FlatEmpty(bs);
    } else {
      var s', last := s[..|s| - 1], s[|s| - 1];
      var c := And(last.hash, n - 1);
      var bs' := bs[c := Moved(s', n, c)];
      FlatMoved(s', n, bs');
      FlatUpdate(bs', c, bs[c]);
      assert bs'[c := bs[c]] == bs;
      assert s == s' + [last];
      assert multiset([last] + bs'[c]) == multiset{last} + multiset(bs'[c]);
      Cancel(multiset(Concat(bs)), multiset(bs'[c]), multiset(s'), multiset{last});
    }
  }

  lemma Cancel<T>(x: multiset<T>, c: multiset<T>, s: multiset<T>, l: multiset<T>)
    requires x + c == s + (l + c)
    ensures x == s + l
  {
    assert forall e :: (x + c)[e] == x[e] + c[e];
    assert forall e :: (s + (l + c))[e] == s[e] + l[e] + c[e];
  }

  /** Moving all entries of a table to n new buckets gives a table again, with the
      same entries. */
  lemma MovedTable<K(!new), V(!new)>(
    bs: seq<seq<Entry<K, V>>>, n: nat, bs': seq<seq<Entry<K, V>>>, hashFunc: K -> nat, multimap: bool)
    requires Table(bs, hashFunc, multimap) && IsPow2(n) && |bs'| == n
    requires forall b :: 0 <= b < n ==> bs'[b] == Moved(Concat(bs), n, b)
    ensures Table(bs', hashFunc, multimap)
    ensures multiset(Concat(bs')) == multiset(Concat(bs)) && |Concat(bs')| == |Concat(bs)|
  {
    hide Contiguous, KeysUnique, Moved, Concat;
    FlatContiguous(bs, |bs|, hashFunc);
    if !multimap {
      UniqueFlat(bs, |bs|, hashFunc);
    }
    forall b | 0 <= b < n
      ensures Contiguous(bs'[b]) && (!multimap ==> KeysUnique(bs'[b]))
    {
      MovedContiguous(Concat(bs), n, b);
      if !multimap {
        MovedUnique(Concat(bs), n, b);
      }
    }
    MovedInPlace(bs, n, bs', hashFunc);
    FlatMoved(Concat(bs), n, bs');
  }

  lemma MovedInPlace<K(!new), V(!new)>(
    bs: seq<seq<Entry<K, V>>>, n: nat, bs': seq<seq<Entry<K, V>>>, hashFunc: K -> nat)
    requires InPlace(bs, hashFunc) && n > 0 && |bs'| == n
    requires forall b :: 0 <= b < n ==> bs'[b] == Moved(Concat(bs), n, b)
    ensures InPlace(bs', hashFunc)
  {
    forall b, e | 0 <= b < n && e in bs'[b]
      ensures e.hash == hashFunc(e.key) && And(e.hash, n - 1) == b
    {
      MovedMember(Concat(bs), n, b, e);
      FlatMember(bs, e);
    }
  }

  lemma FlatPrefix<T>(bs: seq<seq<T>>, k: nat)
    requires k < |bs|
    ensures |Concat(bs[..k])| + |bs[k]| <= |Concat(bs)|
    ensures Concat(bs[..k + 1]) == Concat(bs[..k]) + bs[k]
  {
    hide Concat;
    assert bs[..k + 1][..k] == bs[..k];
    ConcatLast(bs[..k + 1]);
    ConcatSplit(bs, k + 1);
  }

  // ----- the order of the entries of one key -----

  /** The entries of a key, in order. */
  ghost function Those<K, V>(s: seq<Entry<K, V>>, key: K): seq<Entry<K, V>> {
    if s == [] then []
    else
      var m := |s| - 1;
      Those(s[..m], key) + if s[m].key == key then [s[m]] else []
  }

  /** A new entry goes behind the first one of its key. */
  function Placed<T>(l: seq<T>, x: T): seq<T> {
    if l == [] then [x] else [l[0], x] + l[1..]
  }

  /** It is the second one, or the only one; the others stay in their order. */
  lemma PlacedMeans<T>(l: seq<T>, x: T)
    ensures |Placed(l, x)| == |l| + 1 && Placed(l, x)[if l == [] then 0 else 1] == x
    ensures RemoveAt(Placed(l, x), if l == [] then 0 else 1) == l
  {
  }

  lemma {:induction false} ThoseConcat<K, V>(s: seq<Entry<K, V>>, t: seq<Entry<K, V>>, key: K)
    ensures Those(s + t, key) == Those(s, key) + Those(t, key)
  {
    if t == [] {
      assert s + t == s;
    } else {
      var m := |t| - 1;
      assert (s + t)[..|s| + m] == s + t[..m];
      ThoseConcat(s, t[..m], key);
    }
  }

  lemma {:induction false} ThoseNone<K, V>(s: seq<Entry<K, V>>, key: K)
    ensures Those(s, key) == [] <==> forall j :: 0 <= j < |s| ==> s[j].key != key
    ensures forall e :: e in Those(s, key) <==> e in s && e.key == key
  {
    if s != [] {
      var m := |s| - 1;
      ThoseNone(s[..m], key);
      assert s == s[..m] + [s[m]];
    }
  }

  lemma ThoseOne<K, V>(x: Entry<K, V>, key: K)
    ensures Those([x], key) == if x.key == key then [x] else []
  {
    assert [x][..0] == [];
  }

  lemma ThoseAround<K, V>(a: seq<Entry<K, V>>, x: Entry<K, V>, t: seq<Entry<K, V>>, key: K)
    ensures Those(a + [x] + t, key) == Those(a, key) + (if x.key == key then [x] else []) + Those(t, key)
  {
    hide Those;
    ThoseConcat(a + [x], t, key);
    ThoseConcat(a, [x], key);
    ThoseOne(x, key);
  }

  lemma Around<T>(s: seq<T>, i: nat)
    requires i < |s|
    ensures s == s[..i] + [s[i]] + s[i + 1..] && s[..i + 1] == s[..i] + [s[i]]
  {
  }

  lemma NilLeft<T>(t: seq<T>)
    ensures [] + t == t == t + []
  {
  }

  /** The entry found first is the first one of its key. */
  lemma ThoseFirst<K, V>(s: seq<Entry<K, V>>, i: nat)
    requires i < |s| && forall j :: 0 <= j < i ==> s[j].key != s[i].key
    ensures Those(s[..i], s[i].key) == []
    ensures Those(s, s[i].key) == [s[i]] + Those(s[i + 1..], s[i].key)
  {
    hide Those;
    Around(s, i);
    ThoseNone(s[..i], s[i].key);
    ThoseAround(s[..i], s[i], s[i + 1..], s[i].key);
    NilLeft([s[i]]);
  }

  /** An insertion behind the first entry of the key, or at the front. */
  lemma ThoseInserted<K, V>(s: seq<Entry<K, V>>, i: nat, x: Entry<K, V>, key: K)
    requires i <= |s| && (i < |s| ==> s[i].key == x.key) && forall j :: 0 <= j < i ==> s[j].key != x.key
    ensures var t := InsertAt(s, if i < |s| then i + 1 else 0, x);
            Those(t, key) == if key == x.key then Placed(Those(s, key), x) else Those(s, key)
  {
    hide Those;
    if i < |s| {
      BehindThose(s, i, x, key);
    } else {
      FrontThose(s, x, key);
    }
  }

  lemma FrontThose<K, V>(s: seq<Entry<K, V>>, x: Entry<K, V>, key: K)
    requires forall j :: 0 <= j < |s| ==> s[j].key != x.key
    ensures Those(InsertAt(s, 0, x), key) == if key == x.key then Placed(Those(s, key), x) else Those(s, key)
  {
    hide Those;
    ThoseNone(s, x.key);
    ThoseOne(x, key);
    ThoseConcat([x], s, key);
    NilLeft(Those(s, key));
    assert InsertAt(s, 0, x) == [x] + s;
  }

  lemma BehindThose<K, V>(s: seq<Entry<K, V>>, i: nat, x: Entry<K, V>, key: K)
    requires i < |s| && s[i].key == x.key && forall j :: 0 <= j < i ==> s[j].key != x.key
    ensures Those(InsertAt(s, i + 1, x), key) == if key == x.key then Placed(Those(s, key), x) else Those(s, key)
  {
    hide Those;
    var a, t := s[..i + 1], s[i + 1..];
    ThoseAround(a, x, t, key);
    ThoseConcat(a, t, key);
    assert s == a + t;
    if key == x.key {
      ThoseFirst(s, i);
      Around(s, i);
      ThoseConcat(s[..i], [s[i]], key);
      ThoseOne(s[i], key);
      NilLeft([s[i]]);
    } else {
      NilLeft(Those(a, key));
    }
  }

  /** A deletion of the first entry of its key. */
  lemma ThoseRemoved<K, V>(s: seq<Entry<K, V>>, i: nat, key: K)
    requires i < |s| && forall j :: 0 <= j < i ==> s[j].key != s[i].key
    ensures Those(s, key) == (if key == s[i].key then [s[i]] else []) + Those(RemoveAt(s, i), key)
  {
    hide Those;
    Around(s, i);
    ThoseAround(s[..i], s[i], s[i + 1..], key);
    ThoseConcat(s[..i], s[i + 1..], key);
    if key == s[i].key {
      ThoseFirst(s, i);
      NilLeft([s[i]]);
      NilLeft(Those(s[i + 1..], key));
    } else {
      NilLeft(Those(s[..i], key));
      NilLeft(Those(RemoveAt(s, i), key));
    }
  }

  /** All entries of a key are in one bucket. */
  lemma {:induction false} ThoseFlat<K(!new), V(!new)>(
    bs: seq<seq<Entry<K, V>>>, n: nat, hashFunc: K -> nat, key: K)
    requires n > 0
    requires forall b, e :: 0 <= b < |bs| && e in bs[b] ==> e.hash == hashFunc(e.key) && And(e.hash, n - 1) == b
    ensures var c := And(hashFunc(key), n - 1);
            Those(Concat(bs), key) == if c < |bs| then Those(bs[c], key) else []
  {
    hide And, Those;
    if bs == [] {
      ThoseNone<K, V>([], key);
    } else {
      var m := |bs| - 1;
      ConcatLast(bs);
      ThoseFlat(bs[..m], n, hashFunc, key);
      ThoseConcat(Concat(bs[..m]), bs[m], key);
      ThoseNone(bs[m], key);
    }
  }

  lemma TableThose<K(!new), V(!new)>(bs: seq<seq<Entry<K, V>>>, hashFunc: K -> nat, multimap: bool, key: K)
    requires Table(bs, hashFunc, multimap)
    ensures var c := And(hashFunc(key), |bs| - 1); c < |bs| && Those(Concat(bs), key) == Those(bs[c], key)
  {
    hide And, Those, Contiguous, KeysUnique;
    ThoseFlat(bs, |bs|, hashFunc, key);
  }

  /** The order of each key when one bucket changes. */
  lemma ThoseUpdate<K(!new), V(!new)>(
    bs: seq<seq<Entry<K, V>>>, b: nat, s: seq<Entry<K, V>>, hashFunc: K -> nat, multimap: bool, key: K)
    requires b < |bs| && Table(bs, hashFunc, multimap) && Table(bs[b := s], hashFunc, multimap)
    ensures Those(Concat(bs[b := s]), key) ==
            if And(hashFunc(key), |bs| - 1) == b then Those(s, key) else Those(Concat(bs), key)
    ensures And(hashFunc(key), |bs| - 1) == b ==> Those(Concat(bs), key) == Those(bs[b], key)
  {
    hide And, Those, Concat, Table;
    TableThose(bs, hashFunc, multimap, key);
    TableThose(bs[b := s], hashFunc, multimap, key);
  }

  lemma NoneMoved<K, V>(n: nat, b: nat)
    requires n > 0
    ensures Moved<K, V>([], n, b) == [] == Reversed<Entry<K, V>>([])
  {
  }

  lemma MovedOne<K, V>(s: seq<Entry<K, V>>, x: Entry<K, V>, n: nat, b: nat)
    requires n > 0
    ensures Moved(s + [x], n, b) == if And(x.hash, n - 1) == b then [x] + Moved(s, n, b) else Moved(s, n, b)
  {
    assert (s + [x])[..|s|] == s;
  }

  lemma ReversedOne<T>(l: seq<T>, x: T)
    ensures Reversed(l + [x]) == [x] + Reversed(l)
  {
    assert (l + [x])[..|l|] == l;
  }

  /** Moving reverses the order of each key. */
  lemma {:induction false} ThoseMoved<K, V>(s: seq<Entry<K, V>>, n: nat, hash: nat, key: K)
    requires n > 0 && forall e :: e in s && e.key == key ==> e.hash == hash
    ensures Those(Moved(s, n, And(hash, n - 1)), key) == Reversed(Those(s, key))
  {
    hide And, Those, Moved, Reversed;
    var b := And(hash, n - 1);
    if s == [] {
      NoneMoved<K, V>(n, b);
      ThoseNone(s, key);
    } else {
      var m := |s| - 1;
      var l := Those(s[..m], key);
      Around(s, m);
      NilLeft(s[..m] + [s[m]]);
      ThoseMoved(s[..m], n, hash, key);
      MovedOne(s[..m], s[m], n, b);
      ThoseOne(s[m], key);
      ThoseConcat([s[m]], Moved(s[..m], n, b), key);
      ThoseConcat(s[..m], [s[m]], key);
      ReversedOne(l, s[m]);
      NilLeft(Reversed(l));
      NilLeft(l);
    }
  }

  lemma MovedThose<K(!new), V(!new)>(
    bs: seq<seq<Entry<K, V>>>, n: nat, bs': seq<seq<Entry<K, V>>>, hashFunc: K -> nat, multimap: bool, key: K)
    requires Table(bs, hashFunc, multimap) && Table(bs', hashFunc, multimap) && |bs'| == n
    requires forall b :: 0 <= b < n ==> bs'[b] == Moved(Concat(bs), n, b)
    ensures Those(Concat(bs'), key) == Reversed(Those(Concat(bs), key))
  {
    hide And, Those, Concat, Contiguous, KeysUnique, Moved;
    TableThose(bs', hashFunc, multimap, key);
    forall e | e in Concat(bs) && e.key == key ensures e.hash == hashFunc(key) {
      FlatMember(bs, e);
    }
    ThoseMoved(Concat(bs), n, hashFunc(key), key);
  }

  // ----- changing one bucket -----

  /** Replaces bucket b, which takes part in the table, by another good bucket. */
  lemma TableUpdate<K(!new), V(!new)>(
    bs: seq<seq<Entry<K, V>>>, b: nat, s: seq<Entry<K, V>>, hashFunc: K -> nat, multimap: bool)
    requires Table(bs, hashFunc, multimap) && b < |bs|
    requires Contiguous(s) && (!multimap ==> KeysUnique(s))
    requires forall e :: e in s ==> e.hash == hashFunc(e.key) && And(e.hash, |bs| - 1) == b
    ensures Table(bs[b := s], hashFunc, multimap)
    ensures multiset(Concat(bs[b := s])) + multiset(bs[b]) == multiset(Concat(bs)) + multiset(s)
    ensures |Concat(bs[b := s])| + |bs[b]| == |Concat(bs)| + |s|
  {
    hide Concat, And, Contiguous, KeysUnique;
    FlatUpdate(bs, b, s);
  }

  lemma InsertLength<T>(s: seq<T>, i: nat, x: T)
    requires i <= |s|
    ensures |InsertAt(s, i, x)| == |s| + 1
  {
  }

  lemma InsertCount<T>(s: seq<T>, i: nat, x: T)
    requires i <= |s|
    ensures multiset(InsertAt(s, i, x)) == multiset(s) + multiset{x}
  {
    assert s == s[..i] + s[i..];
  }

  /** A new entry goes behind the first one with its key, or to the front when there
      is none. */
  lemma InsertContiguous<K, V>(s: seq<Entry<K, V>>, i: nat, x: Entry<K, V>)
    requires Contiguous(s) && i <= |s|
    requires if i == 0 then forall j :: 0 <= j < |s| ==> s[j].key != x.key else s[i - 1].key == x.key
    ensures Contiguous(InsertAt(s, i, x))
  {
    hide Contiguous;
    if i == 0 {
      FrontContiguous(s, x);
      assert InsertAt(s, 0, x) == [x] + s;
    } else {
      BehindContiguous(s, i, x);
    }
  }

  lemma FrontContiguous<K, V>(s: seq<Entry<K, V>>, x: Entry<K, V>)
    requires Contiguous(s) && forall j :: 0 <= j < |s| ==> s[j].key != x.key
    ensures Contiguous([x] + s)
  {
    var t := [x] + s;
    forall p, q, r | 0 <= p < q < r < |t| && t[p].key == t[r].key ensures t[q].key == t[p].key {
      assert t[q] == s[q - 1] && t[r] == s[r - 1];
      assert p > 0 ==> t[p] == s[p - 1];
    }
  }

  /** It has the key of its left neighbour, which takes its place in s. */
  lemma BehindContiguous<K, V>(s: seq<Entry<K, V>>, i: nat, x: Entry<K, V>)
    requires Contiguous(s) && 0 < i <= |s| && s[i - 1].key == x.key
    ensures Contiguous(InsertAt(s, i, x))
  {
    var t := InsertAt(s, i, x);
    forall j | 0 <= j < |t| ensures t[j].key == s[if j < i then j else j - 1].key {
    }
    forall p, q, r | 0 <= p < q < r < |t| && t[p].key == t[r].key ensures t[q].key == t[p].key {
      var p', q', r' := if p < i then p else p - 1, if q < i then q else q - 1, if r < i then r else r - 1;
      assert t[p].key == s[p'].key && t[q].key == s[q'].key && t[r].key == s[r'].key;
      assert p' < q' < r' ==> s[q'].key == s[p'].key;
    }
  }

  lemma InsertUnique<K, V>(s: seq<Entry<K, V>>, x: Entry<K, V>)
    requires KeysUnique(s) && forall j :: 0 <= j < |s| ==> s[j].key != x.key
    ensures KeysUnique(InsertAt(s, 0, x))
  {
    assert InsertAt(s, 0, x) == [x] + s;
  }

  /** The bucket after an insertion. */
  lemma InsertGood<K(!new), V(!new)>(s: seq<Entry<K, V>>, i: nat, x: Entry<K, V>, multimap: bool)
    requires Contiguous(s) && (!multimap ==> KeysUnique(s) && i == 0) && i <= |s|
    requires if i == 0 then forall j :: 0 <= j < |s| ==> s[j].key != x.key else s[i - 1].key == x.key
    ensures Contiguous(InsertAt(s, i, x)) && (!multimap ==> KeysUnique(InsertAt(s, i, x)))
    ensures multiset(InsertAt(s, i, x)) == multiset(s) + multiset{x}
    ensures forall e :: e in InsertAt(s, i, x) ==> e in s || e == x
  {
    InsertContiguous(s, i, x);
    InsertCount(s, i, x);
    if !multimap {
      InsertUnique(s, x);
    }
  }

  lemma RemoveGood<K, V>(s: seq<Entry<K, V>>, i: nat)
    requires i < |s|
    ensures Contiguous(s) ==> Contiguous(RemoveAt(s, i))
    ensures KeysUnique(s) ==> KeysUnique(RemoveAt(s, i))
    ensures multiset(RemoveAt(s, i)) + multiset{s[i]} == multiset(s)
    ensures |RemoveAt(s, i)| == |s| - 1 && forall e :: e in RemoveAt(s, i) ==> e in s
  {
    hide Contiguous, KeysUnique;
    assert s == s[..i] + [s[i]] + s[i + 1..];
    RemoveKeys(s, i);
  }

  lemma RemoveKeys<K, V>(s: seq<Entry<K, V>>, i: nat)
    requires i < |s|
    ensures Contiguous(s) ==> Contiguous(RemoveAt(s, i))
    ensures KeysUnique(s) ==> KeysUnique(RemoveAt(s, i))
  {
    var t := RemoveAt(s, i);
    forall j | 0 <= j < |t| ensures t[j] == s[if j < i then j else j + 1] {
    }
    if Contiguous(s) {
      forall p, q, r | 0 <= p < q < r < |t| && t[p].key == t[r].key ensures t[q].key == t[p].key {
        var p', q', r' := if p < i then p else p + 1, if q < i then q else q + 1, if r < i then r else r + 1;
        assert t[p] == s[p'] && t[q] == s[q'] && t[r] == s[r'];
      }
    }
    if KeysUnique(s) {
      forall p, q | 0 <= p < q < |t| ensures t[p].key != t[q].key {
        assert t[p] == s[if p < i then p else p + 1] && t[q] == s[if q < i then q else q + 1];
      }
    }
  }

  lemma BucketFacts<K(!new), V(!new)>(bs: seq<seq<Entry<K, V>>>, b: nat, hashFunc: K -> nat, multimap: bool)
    requires Table(bs, hashFunc, multimap) && b < |bs|
    ensures Contiguous(bs[b]) && (!multimap ==> KeysUnique(bs[b]))
    ensures forall e :: e in bs[b] ==> e.hash == hashFunc(e.key) && And(e.hash, |bs| - 1) == b
  {
  }

  /** The table with a new entry behind the first one of its key, i, or at the front. */
  lemma TableInserted<K(!new), V(!new)>(
    bs: seq<seq<Entry<K, V>>>, b: nat, i: nat, e: Entry<K, V>, hashFunc: K -> nat, multimap: bool)
    requires Table(bs, hashFunc, multimap) && b < |bs| && i <= |bs[b]|
    requires e.hash == hashFunc(e.key) && And(e.hash, |bs| - 1) == b
    requires (i < |bs[b]| ==> multimap && bs[b][i].key == e.key) && forall j :: 0 <= j < i ==> bs[b][j].key != e.key
    ensures var bs' := bs[b := InsertAt(bs[b], if i < |bs[b]| then i + 1 else 0, e)];
            && Table(bs', hashFunc, multimap) && |Concat(bs')| == |Concat(bs)| + 1
            && multiset(Concat(bs')) == multiset(Concat(bs)) + multiset{e}
            && forall k :: Those(Concat(bs'), k) ==
                           if k == e.key then Placed(Those(Concat(bs), k), e) else Those(Concat(bs), k)
  {
    hide Table, Contiguous, KeysUnique, And, InsertAt, Concat, Those, Placed;
    var s, at := bs[b], if i < |bs[b]| then i + 1 else 0;
    var s' := InsertAt(s, at, e);
    BucketFacts(bs, b, hashFunc, multimap);
    InsertGood(s, at, e, multimap);
    TableUpdate(bs, b, s', hashFunc, multimap);
    InsertLength(s, at, e);
    Cancel(multiset(Concat(bs[b := s'])), multiset(s), multiset(Concat(bs)), multiset{e});
    forall k ensures Those(Concat(bs[b := s']), k) ==
                     if k == e.key then Placed(Those(Concat(bs), k), e) else Those(Concat(bs), k)
    {
      ThoseUpdate(bs, b, s', hashFunc, multimap, k);
      ThoseInserted(s, i, e, k);
    }
  }

  /** The table without the first entry of a key. */
  lemma TableRemoved<K(!new), V(!new)>(
    bs: seq<seq<Entry<K, V>>>, b: nat, i: nat, hashFunc: K -> nat, multimap: bool)
    requires Table(bs, hashFunc, multimap) && b < |bs| && i < |bs[b]|
    requires forall j :: 0 <= j < i ==> bs[b][j].key != bs[b][i].key
    ensures var bs', e := bs[b := RemoveAt(bs[b], i)], bs[b][i];
            && Table(bs', hashFunc, multimap) && |Concat(bs')| + 1 == |Concat(bs)|
            && multiset(Concat(bs')) + multiset{e} == multiset(Concat(bs))
            && forall k :: Those(Concat(bs), k) == (if k == e.key then [e] else []) + Those(Concat(bs'), k)
  {
    hide Table, Contiguous, KeysUnique, And, RemoveAt, Concat, Those;
    var s, s' := bs[b], RemoveAt(bs[b], i);
    BucketFacts(bs, b, hashFunc, multimap);
    RemoveGood(s, i);
    TableUpdate(bs, b, s', hashFunc, multimap);
    Cancel(multiset(Concat(bs)), multiset(s'), multiset(Concat(bs[b := s'])), multiset{s[i]});
    forall k ensures Those(Concat(bs), k) == (if k == s[i].key then [s[i]] else []) + Those(Concat(bs[b := s']), k) {
      ThoseUpdate(bs, b, s', hashFunc, multimap, k);
      ThoseRemoved(s, i, k);
      if And(hashFunc(k), |bs| - 1) != b {
        assert s[i] in bs[b];
        NilLeft(Those(Concat(bs), k));
      }
    }
  }

  // ----- the table object -----

  ghost predicate HasKey<K(!new), V(!new)>(m: multiset<Entry<K, V>>, key: K) {
    exists e :: e in m && e.key == key
  }

  class Hash<K(==, !new), V(==, !new)> {
    var buckets: array<seq<Entry<K, V>>>
    const isMultimap: bool
    var elmcount: nat
    var resizeThreshold: nat
    const multLoadFactor: nat := 2
    const divLoadFactor: nat := 3
    const hashFunc: K -> nat

    ghost predicate Valid()
      reads this, buckets
    {
      && Table(buckets[..], hashFunc, isMultimap)
      && elmcount == |Concat(buckets[..])|
      && resizeThreshold == buckets.Length * multLoadFactor / divLoadFactor
    }

    /** The abstract multimap. */
    ghost function Contents(): multiset<Entry<K, V>>
      reads this, buckets
    {
      multiset(Concat(buckets[..]))
    }

    /** The entries of a key in the order of their bucket. */
    ghost function Of(key: K): seq<Entry<K, V>>
      reads this, buckets
    {
      Those(Concat(buckets[..]), key)
    }

    constructor (size: nat, isMultimap: bool, hashFunc: K -> nat)
      ensures Valid() && Contents() == multiset{} && fresh(buckets)
      ensures elmcount == 0 && buckets.Length == RoundUp(1, size) && forall k :: Of(k) == []
      ensures this.isMultimap == isMultimap && this.hashFunc == hashFunc
    {
      var n := RoundToPowerOfTwo(size);
      this.isMultimap, this.hashFunc := isMultimap, hashFunc;
      buckets := new seq<Entry<K, V>>[n](_ => []);
      elmcount := 0;
      resizeThreshold := n * 2 / 3;
      new;
      FlatEmpty(buckets[..]);
    }

    function Bucket(hash: nat): (b: nat)
      reads this, buckets
      ensures b <= buckets.Length - 1 || buckets.Length == 0
    {
      if buckets.Length == 0 then 0 else And(hash, buckets.Length - 1)
    }

    /** HASH_find_in_bucket: the index of the first entry with the key. */
    method FindInBucket(s: seq<Entry<K, V>>, hash: nat, key: K) returns (i: nat)
      requires forall e :: e in s && e.key == key ==> e.hash == hash
      ensures i <= |s| && (i < |s| ==> s[i].key == key)
      ensures forall j :: 0 <= j < i ==> s[j].key != key
    {
      i := 0;
      while i < |s|
        invariant i <= |s|
        invariant forall j :: 0 <= j < i ==> s[j].key != key
      {
        if s[i].hash == hash {
          if s[i].key == key {
            return;
          }
        }
        i := i + 1;
      }
    }

    /** HASH_find. */
    method Find(key: K) returns (r: Option<Entry<K, V>>)
      requires Valid()
      ensures r.None? <==> !HasKey(Contents(), key)
      ensures r.Some? ==> r.value in Contents() && r.value.key == key
      ensures r == if Of(key) == [] then None else Some(Of(key)[0])
    {
      hide Table, And, Concat, Those;
      var hash := hashFunc(key);
      var b := Bucket(hash);
      ghost var bs := buckets[..];
      KeyInBucket(bs, hashFunc, isMultimap, key);
      TableThose(bs, hashFunc, isMultimap, key);
      var i := FindInBucket(buckets[b], hash, key);
      if i < |buckets[b]| {
        assert bs[b][i] in bs[b];
        ThoseFirst(bs[b], i);
        return Some(buckets[b][i]);
      }
      ThoseNone(bs[b], key);
      return None;
    }

    /** HASH_resize: unlinks every entry from the front of its bucket and pushes it
        to the front of its new one. */
    method Resize(size: nat)
      requires Valid()
      modifies this`buckets, this`elmcount, this`resizeThreshold, buckets
      ensures Valid() && fresh(buckets) && Contents() == old(Contents()) && elmcount == old(elmcount)
      ensures forall b :: 0 <= b < buckets.Length ==> buckets[b] == Moved(Concat(old(buckets[..])), buckets.Length, b)
      ensures IsPow2(buckets.Length) && size <= buckets.Length == RoundUp(1, size)
      ensures forall k :: Of(k) == Reversed(old(Of(k)))
    {
      hide Table, Contiguous, KeysUnique, And, RoundUp, Reversed, Those, Concat, Moved;
      var n := RoundToPowerOfTwo(size);
      var pbuckets := new seq<Entry<K, V>>[n](_ => []);
      var saved := elmcount;
      ghost var bs := buckets[..];
      ghost var done: seq<Entry<K, V>> := [];
      var i := 0;
      FlatEmpty(bs[..0]);
      forall b: nat ensures Moved<K, V>([], n, b) == [] {
        NoneMoved<K, V>(n, b);
      }
      while i < buckets.Length
        invariant i <= buckets.Length && buckets == old(buckets) && fresh(pbuckets) && pbuckets.Length == n
        invariant buckets[i..] == bs[i..]
        invariant done == Concat(bs[..i]) && elmcount + |done| == |Concat(bs)|
        invariant forall b :: 0 <= b < n ==> pbuckets[b] == Moved(done, n, b)
      {
        FlatPrefix(bs, i);
        ghost var before := done;
        assert bs[i] == buckets[i];
        while buckets[i] != []
          invariant i < buckets.Length && buckets == old(buckets) && fresh(pbuckets) && pbuckets.Length == n
          invariant buckets[i + 1..] == bs[i + 1..]
          invariant done + buckets[i] == before + bs[i] && |before| <= |done|
          invariant elmcount + |done| == |Concat(bs)|
          invariant forall b :: 0 <= b < n ==> pbuckets[b] == Moved(done, n, b)
          decreases |buckets[i]|
        {
          var cur := buckets[i][0];
          ghost var rest := buckets[i];
          buckets[i] := buckets[i][1..];
          elmcount := elmcount - 1;
          TakeOne(done, rest);
          forall b | 0 <= b < n
            ensures Moved(done + [cur], n, b) ==
                    if And(cur.hash, n - 1) == b then [cur] + Moved(done, n, b) else Moved(done, n, b)
          {
            MovedOne(done, cur, n, b);
          }
          var b := And(cur.hash, n - 1);
          pbuckets[b] := [cur] + pbuckets[b];
          done := done + [cur];
        }
        i := i + 1;
      }
      assert bs[..i] == bs;
      assert buckets.Length == |bs|;
      buckets := pbuckets;
      elmcount := saved;
      resizeThreshold := n * multLoadFactor / divLoadFactor;
      MovedTable(bs, n, buckets[..], hashFunc, isMultimap);
      forall k ensures Those(Concat(buckets[..]), k) == Reversed(Those(Concat(bs), k)) {
        MovedThose(bs, n, buckets[..], hashFunc, isMultimap, k);
      }
    }

    /** HASH_insert: grows the table first when it is full enough. */
    method Insert(entry: Entry<K, V>) returns (rc: int)
      requires Valid()
      modifies this, buckets
      ensures Valid() && (buckets == old(buckets) || fresh(buckets))
      ensures rc == if !isMultimap && HasKey(old(Contents()), entry.key) then -1 else 0
      ensures Contents() == old(Contents()) +
                            if rc == 0 then multiset{entry.(hash := hashFunc(entry.key))} else multiset{}
      ensures elmcount == old(elmcount) + if rc == 0 then 1 else 0
      ensures buckets.Length ==
              if old(elmcount + 1 >= resizeThreshold) then RoundUp(1, 2 * old(buckets.Length)) else old(buckets.Length)
      ensures forall k :: Of(k) ==
                          var l := if old(elmcount + 1 >= resizeThreshold) then Reversed(old(Of(k))) else old(Of(k));
                          if rc == 0 && k == entry.key then Placed(l, entry.(hash := hashFunc(k))) else l
    {
      hide Table, Concat, Those, Reversed, Placed, HasKey, RoundUp;
      if elmcount + 1 >= resizeThreshold {
        Resize(2 * buckets.Length);
      }
      rc := InsertHere(entry);
    }

    /** The insertion without growth. */
    method InsertHere(entry: Entry<K, V>) returns (rc: int)
      requires Valid()
      modifies this`elmcount, buckets
      ensures Valid()
      ensures rc == if !isMultimap && HasKey(old(Contents()), entry.key) then -1 else 0
      ensures Contents() == old(Contents()) +
                            if rc == 0 then multiset{entry.(hash := hashFunc(entry.key))} else multiset{}
      ensures elmcount == old(elmcount) + if rc == 0 then 1 else 0
      ensures forall k :: Of(k) == if rc == 0 && k == entry.key then Placed(old(Of(k)), entry.(hash := hashFunc(k)))
                                   else old(Of(k))
    {
      hide Table, Contiguous, KeysUnique, And, InsertAt, Concat, Those, Placed, HasKey;
      var hash := hashFunc(entry.key);
      var e := entry.(hash := hash);
      ghost var bs: seq<seq<Entry<K, V>>> := buckets[..];
      KeyInBucket(bs, hashFunc, isMultimap, entry.key);
      var b := Bucket(hash);
      var s := buckets[b];
      var i := FindInBucket(s, hash, entry.key);
      HasKeyInBucket(bs, hashFunc, isMultimap, entry.key);
      if !isMultimap && i < |s| {
        return -1;
      }
      var at := if i < |s| then i + 1 else 0;
      TableInserted(bs, b, i, e, hashFunc, isMultimap);
      buckets[b] := InsertAt(s, at, e);
      elmcount := elmcount + 1;
      assert buckets[..] == bs[b := InsertAt(s, at, e)];
      return 0;
    }

    /** HASH_unlink: takes out the first entry with the key. */
    method Unlink(key: K) returns (r: Option<Entry<K, V>>)
      requires Valid()
      modifies this`elmcount, buckets
      ensures Valid()
      ensures r.None? <==> !HasKey(old(Contents()), key)
      ensures r.None? ==> Contents() == old(Contents())
      ensures r.Some? ==> r.value.key == key && Contents() + multiset{r.value} == old(Contents())
      ensures r == if old(Of(key)) == [] then None else Some(old(Of(key))[0])
      ensures elmcount == old(elmcount) - if r.Some? then 1 else 0
      ensures forall k :: Of(k) == if k == key && old(Of(k)) != [] then old(Of(k))[1..] else old(Of(k))
    {
      hide Table, Contiguous, KeysUnique, And, RemoveAt, Concat, Those;
      var hash := hashFunc(key);
      ghost var bs: seq<seq<Entry<K, V>>> := buckets[..];
      KeyInBucket(bs, hashFunc, isMultimap, key);
      var b := Bucket(hash);
      var s := buckets[b];
      var i := FindInBucket(s, hash, key);
      TableThose(bs, hashFunc, isMultimap, key);
      if i == |s| {
        ThoseNone(s, key);
        return None;
      }
      assert s[i] in bs[b];
      TableRemoved(bs, b, i, hashFunc, isMultimap);
      buckets[b] := RemoveAt(s, i);
      elmcount := elmcount - 1;
      assert buckets[..] == bs[b := RemoveAt(s, i)];
      return Some(s[i]);
    }
  }

  lemma TakeOne<T>(done: seq<T>, rest: seq<T>)
    requires rest != []
    ensures done + rest == (done + [rest[0]]) + rest[1..]
  {
  }

  /** All entries with a key are in the bucket of that key. */
  lemma KeyInBucket<K(!new), V(!new)>(bs: seq<seq<Entry<K, V>>>, hashFunc: K -> nat, multimap: bool, key: K)
    requires Table(bs, hashFunc, multimap)
    ensures 0 < |bs| && And(hashFunc(key), |bs| - 1) < |bs|
    ensures var b := And(hashFunc(key), |bs| - 1);
            && (forall e :: e in multiset(Concat(bs)) && e.key == key ==> e in bs[b])
            && (forall e :: e in bs[b] && e.key == key ==> e in multiset(Concat(bs)) && e.hash == hashFunc(key))
  {
    var b := And(hashFunc(key), |bs| - 1);
    forall e | e in multiset(Concat(bs)) && e.key == key
      ensures e in bs[b]
    {
      FlatMember(bs, e);
    }
    forall e | e in bs[b] && e.key == key
      ensures e in multiset(Concat(bs)) && e.hash == hashFunc(key)
    {
      FlatMember(bs, e);
    }
  }

  lemma HasKeyInBucket<K(!new), V(!new)>(bs: seq<seq<Entry<K, V>>>, hashFunc: K -> nat, multimap: bool, key: K)
    requires Table(bs, hashFunc, multimap)
    ensures var b := And(hashFunc(key), |bs| - 1);
            b < |bs| && (HasKey(multiset(Concat(bs)), key) <==> exists j :: 0 <= j < |bs[b]| && bs[b][j].key == key)
  {
    hide And, Table, Concat;
    KeyInBucket(bs, hashFunc, multimap, key);
    var b := And(hashFunc(key), |bs| - 1);
    if j :| 0 <= j < |bs[b]| && bs[b][j].key == key {
      assert bs[b][j] in bs[b];
    }
  }

  // ----- whole runs of a map -----

  datatype Op<K, V> = OpInsert(key: K, value: V) | OpUnlink(key: K) | OpFind(key: K) | OpResize(size: nat)

  /** The reference: a finite map.  The answer is the value found or taken out, or
      the value in the way of an insertion. */
  function MapAfter<K, V>(m: map<K, V>, op: Op<K, V>): map<K, V> {
    match op
    case OpInsert(k, v) => if k in m then m else m[k := v]
    case OpUnlink(k) => m - {k}
    case _ => m
  }

  function MapAnswer<K, V>(m: map<K, V>, op: Op<K, V>): Option<V> {
    if op.OpResize? then None else if op.key in m then Some(m[op.key]) else None
  }

  function MapRun<K, V>(m: map<K, V>, ops: seq<Op<K, V>>): map<K, V> {
    if ops == [] then m else MapAfter(MapRun(m, ops[..|ops| - 1]), ops[|ops| - 1])
  }

  function MapAnswers<K, V>(m: map<K, V>, ops: seq<Op<K, V>>): seq<Option<V>> {
    if ops == [] then []
    else
      var n := |ops| - 1;
      MapAnswers(m, ops[..n]) + [MapAnswer(MapRun(m, ops[..n]), ops[n])]
  }

  /** The entries of a table are the pairs of a map. */
  ghost predicate Represents<K(!new), V(!new)>(ms: multiset<Entry<K, V>>, hashFunc: K -> nat, m: map<K, V>) {
    forall e :: ms[e] == if e.key in m && m[e.key] == e.value && e.hash == hashFunc(e.key) then 1 else 0
  }

  lemma KeyOfMap<K(!new), V(!new)>(ms: multiset<Entry<K, V>>, hashFunc: K -> nat, m: map<K, V>, key: K)
    requires Represents(ms, hashFunc, m)
    ensures HasKey(ms, key) <==> key in m
    ensures forall e :: e in ms && e.key == key ==> e == Entry(key, m[key], hashFunc(key))
  {
    if key in m {
      assert ms[Entry(key, m[key], hashFunc(key))] == 1;
    }
  }

  /** Adding or taking out an entry follows the map. */
  lemma FollowsMap<K(!new), V(!new)>(
    ms: multiset<Entry<K, V>>, ms': multiset<Entry<K, V>>, hashFunc: K -> nat, m: map<K, V>, key: K, value: V)
    requires Represents(ms, hashFunc, m)
    ensures key !in m && ms' == ms + multiset{Entry(key, value, hashFunc(key))} ==>
              Represents(ms', hashFunc, m[key := value])
    ensures key in m && ms' + multiset{Entry(key, m[key], hashFunc(key))} == ms ==>
              Represents(ms', hashFunc, m - {key})
  {
    var e0 := Entry(key, value, hashFunc(key));
    if key !in m && ms' == ms + multiset{e0} {
      forall e: Entry<K, V>
        ensures ms'[e] == ms[e] + if e == e0 then 1 else 0
      {
      }
    }
    if key in m {
      var e1 := Entry(key, m[key], hashFunc(key));
      if ms' + multiset{e1} == ms {
        forall e: Entry<K, V>
          ensures ms[e] == ms'[e] + if e == e1 then 1 else 0
        {
          assert (ms' + multiset{e1})[e] == ms'[e] + multiset{e1}[e];
        }
      }
    }
  }

  /** One operation on a table that represents a map. */
  method Perform<K(==, !new), V(==, !new)>(h: Hash<K, V>, op: Op<K, V>, ghost m: map<K, V>) returns (r: Option<V>)
    requires h.Valid() && !h.isMultimap && Represents(h.Contents(), h.hashFunc, m)
    modifies h, h.buckets
    ensures h.Valid() && Represents(h.Contents(), h.hashFunc, MapAfter(m, op))
    ensures h.buckets == old(h.buckets) || fresh(h.buckets)
    ensures r == MapAnswer(m, op)
  {
    hide Represents, Table, Concat, HasKey, Those, Reversed, Placed, RoundUp;
    ghost var ms := h.Contents();
    match op {
      case OpInsert(k, v) =>
        KeyOfMap(ms, h.hashFunc, m, k);
        var found := h.Find(k);
        var rc := h.Insert(Entry(k, v, 0));
        FollowsMap(ms, h.Contents(), h.hashFunc, m, k, v);
        assert rc == 0 ==> h.Contents() == ms + multiset{Entry(k, v, h.hashFunc(k))};
        assert rc == -1 ==> h.Contents() == ms;
        r := if found.Some? then Some(found.value.value) else None;
      case OpUnlink(k) =>
        KeyOfMap(ms, h.hashFunc, m, k);
        var found := h.Unlink(k);
        if found.Some? {
          assert found.value in ms;
          FollowsMap(ms, h.Contents(), h.hashFunc, m, k, found.value.value);
        } else {
          assert m - {k} == m;
        }
        r := if found.Some? then Some(found.value.value) else None;
      case OpFind(k) =>
        KeyOfMap(ms, h.hashFunc, m, k);
        var found := h.Find(k);
        r := if found.Some? then Some(found.value.value) else None;
      case OpResize(size) =>
        h.Resize(size);
        r := None;
    }
  }

  /** Every run of operations on a fresh table gives the answers of the reference
      map, through all the growth on the way. */
  method Run<K(==, !new), V(==, !new)>(size: nat, hashFunc: K -> nat, ops: seq<Op<K, V>>)
    returns (h: Hash<K, V>, answers: seq<Option<V>>)
    ensures h.Valid() && Represents(h.Contents(), hashFunc, MapRun(map[], ops))
    ensures answers == MapAnswers(map[], ops)
  {
    hide Represents, Table, Concat;
    h := new Hash(size, false, hashFunc);
    EmptyMap(h.Contents(), hashFunc);
    answers := [];
    var i := 0;
    while i < |ops|
      invariant i <= |ops| && fresh(h) && fresh(h.buckets) && h.Valid() && !h.isMultimap && h.hashFunc == hashFunc
      invariant Represents(h.Contents(), hashFunc, MapRun(map[], ops[..i]))
      invariant answers == MapAnswers(map[], ops[..i])
    {
      var r := Perform(h, ops[i], MapRun(map[], ops[..i]));
      assert ops[..i + 1][..i] == ops[..i];
      answers := answers + [r];
      i := i + 1;
    }
    assert ops[..i] == ops;
  }

  // ----- whole runs of a multimap -----

  /** The reference: the values of each key in order, how many there are in all, and
      how many buckets. */
  datatype Multi<K, V> = Multi(lists: map<K, seq<V>>, count: nat, size: nat)

  function Listed<K, V>(m: Multi<K, V>, key: K): seq<V> {
    if key in m.lists then m.lists[key] else []
  }

  /** A resize turns the values of every key around. */
  function Turned<K, V>(m: Multi<K, V>, size: nat): Multi<K, V> {
    Multi(map k | k in m.lists :: Reversed(m.lists[k]), m.count, RoundUp(1, size))
  }

  function MultiAfter<K, V>(m: Multi<K, V>, op: Op<K, V>): Multi<K, V> {
    match op
    case OpInsert(k, v) =>
      var g := if m.count + 1 >= m.size * 2 / 3 then Turned(m, 2 * m.size) else m;
      Multi(g.lists[k := Placed(Listed(g, k), v)], m.count + 1, g.size)
    case OpUnlink(k) =>
      if Listed(m, k) == [] || m.count == 0 then m
      else Multi(m.lists[k := Listed(m, k)[1..]], m.count - 1, m.size)
    case OpFind(_) => m
    case OpResize(size) => Turned(m, size)
  }

  /** The first value of the key is the one that is found or taken out. */
  function MultiAnswer<K, V>(m: Multi<K, V>, op: Op<K, V>): Option<V> {
    if op.OpFind? || op.OpUnlink? then (if Listed(m, op.key) == [] then None else Some(Listed(m, op.key)[0]))
    else None
  }

  function MultiRun<K, V>(m: Multi<K, V>, ops: seq<Op<K, V>>): Multi<K, V> {
    if ops == [] then m else MultiAfter(MultiRun(m, ops[..|ops| - 1]), ops[|ops| - 1])
  }

  function MultiAnswers<K, V>(m: Multi<K, V>, ops: seq<Op<K, V>>): seq<Option<V>> {
    if ops == [] then []
    else
      var n := |ops| - 1;
      MultiAnswers(m, ops[..n]) + [MultiAnswer(MultiRun(m, ops[..n]), ops[n])]
  }

  ghost function Entries<K, V>(key: K, values: seq<V>, hash: nat): (es: seq<Entry<K, V>>)
    ensures |es| == |values|
  {
    if values == [] then []
    else
      var m := |values| - 1;
      Entries(key, values[..m], hash) + [Entry(key, values[m], hash)]
  }

  lemma {:induction false} EntriesAt<K, V>(key: K, values: seq<V>, hash: nat, i: nat)
    requires i < |values|
    ensures Entries(key, values, hash)[i] == Entry(key, values[i], hash)
  {
    if i < |values| - 1 {
      EntriesAt(key, values[..|values| - 1], hash, i);
    }
  }

  /** The entries of the reversed list, and of the list without its first value. */
  lemma EntriesChanged<K, V>(key: K, values: seq<V>, hash: nat)
    ensures Entries(key, Reversed(values), hash) == Reversed(Entries(key, values, hash))
    ensures values != [] ==> Entries(key, values, hash)[0] == Entry(key, values[0], hash)
    ensures values != [] ==> Entries(key, values[1..], hash) == Entries(key, values, hash)[1..]
  {
    hide Entries, Reversed;
    var n := |values|;
    forall i | 0 <= i < n ensures Entries(key, values, hash)[i] == Entry(key, values[i], hash)
      ensures Entries(key, Reversed(values), hash)[i] == Reversed(Entries(key, values, hash))[i]
    {
      EntriesAt(key, values, hash, i);
      EntriesAt(key, values, hash, n - 1 - i);
      EntriesAt(key, Reversed(values), hash, i);
    }
    forall i | 0 <= i < n - 1 ensures Entries(key, values[1..], hash)[i] == Entries(key, values, hash)[1..][i] {
      EntriesAt(key, values[1..], hash, i);
    }
  }

  lemma EntriesPlaced<K, V>(key: K, values: seq<V>, hash: nat, v: V)
    ensures Entries(key, Placed(values, v), hash) == Placed(Entries(key, values, hash), Entry(key, v, hash))
  {
    hide Entries;
    forall i | 0 <= i < |Placed(values, v)|
      ensures Entries(key, Placed(values, v), hash)[i] == Placed(Entries(key, values, hash), Entry(key, v, hash))[i]
    {
      EntriesAt(key, Placed(values, v), hash, i);
      if values != [] {
        EntriesAt(key, values, hash, if i > 0 then i - 1 else 0);
      }
    }
  }

  lemma ListChanged<K, V>(m: Multi<K, V>, key: K, hash: nat)
    ensures var l := Listed(m, key);
            && (forall size :: Listed(Turned(m, size), key) == Reversed(l))
            && Entries(key, Reversed(l), hash) == Reversed(Entries(key, l, hash))
            && (l != [] ==> Entries(key, l, hash)[0] == Entry(key, l[0], hash))
            && (l != [] ==> Entries(key, l[1..], hash) == Entries(key, l, hash)[1..])
  {
    hide Entries;
    EntriesChanged(key, Listed(m, key), hash);
  }

  /** The table has the entries of each key in the order of the reference. */
  ghost predicate Orders<K(!new), V(!new)>(h: Hash<K, V>, m: Multi<K, V>)
    reads h, h.buckets
  {
    && h.elmcount == m.count && h.buckets.Length == m.size
    && forall k :: h.Of(k) == Entries(k, Listed(m, k), h.hashFunc(k))
  }

  /** A table with an entry is not empty. */
  lemma Counted<K(!new), V(!new)>(h: Hash<K, V>, key: K)
    requires h.Valid() && h.Of(key) != []
    ensures h.elmcount > 0
  {
    ThoseNone(Concat(h.buckets[..]), key);
  }

  method MultiInsert<K(==, !new), V(==, !new)>(h: Hash<K, V>, k: K, v: V, ghost m: Multi<K, V>)
    requires h.Valid() && h.isMultimap && Orders(h, m)
    modifies h, h.buckets
    ensures h.Valid() && (h.buckets == old(h.buckets) || fresh(h.buckets))
    ensures Orders(h, MultiAfter(m, OpInsert(k, v)))
  {
    hide Table, Concat, HasKey, Those, Entries, Reversed, RoundUp, Placed;
    ghost var m' := MultiAfter(m, OpInsert(k, v));
    ghost var g := if m.count + 1 >= m.size * 2 / 3 then Turned(m, 2 * m.size) else m;
    var rc := h.Insert(Entry(k, v, 0));
    forall j ensures h.Of(j) == Entries(j, Listed(m', j), h.hashFunc(j)) {
      ListChanged(m, j, h.hashFunc(j));
      EntriesPlaced(j, Listed(g, j), h.hashFunc(j), v);
    }
  }

  method MultiUnlink<K(==, !new), V(==, !new)>(h: Hash<K, V>, k: K, ghost m: Multi<K, V>) returns (r: Option<V>)
    requires h.Valid() && h.isMultimap && Orders(h, m)
    modifies h, h.buckets
    ensures h.Valid() && h.buckets == old(h.buckets)
    ensures Orders(h, MultiAfter(m, OpUnlink(k))) && r == MultiAnswer(m, OpUnlink(k))
  {
    hide Table, Concat, HasKey, Those, Entries, Reversed, RoundUp, Placed;
    ghost var m' := MultiAfter(m, OpUnlink(k));
    ListChanged(m, k, h.hashFunc(k));
    if h.Of(k) != [] {
      Counted(h, k);
    }
    var e := h.Unlink(k);
    r := if e.Some? then Some(e.value.value) else None;
    forall j ensures h.Of(j) == Entries(j, Listed(m', j), h.hashFunc(j)) {
    }
  }

  method PerformMulti<K(==, !new), V(==, !new)>(h: Hash<K, V>, op: Op<K, V>, ghost m: Multi<K, V>)
    returns (r: Option<V>)
    requires h.Valid() && h.isMultimap && Orders(h, m)
    modifies h, h.buckets
    ensures h.Valid() && (h.buckets == old(h.buckets) || fresh(h.buckets))
    ensures Orders(h, MultiAfter(m, op)) && r == MultiAnswer(m, op)
  {
    hide Table, Concat, HasKey, Those, Entries, Reversed, RoundUp, Placed;
    r := None;
    match op {
      case OpInsert(k, v) => MultiInsert(h, k, v, m);
      case OpUnlink(k) => r := MultiUnlink(h, k, m);
      case OpFind(k) =>
        var e := h.Find(k);
        ListChanged(m, k, h.hashFunc(k));
        r := if e.Some? then Some(e.value.value) else None;
      case OpResize(size) =>
        h.Resize(size);
        forall j ensures h.Of(j) == Entries(j, Listed(Turned(m, size), j), h.hashFunc(j)) {
          ListChanged(m, j, h.hashFunc(j));
        }
    }
  }

  /** Every run of operations on a fresh multimap answers as the reference, through all
      the growth on the way: the first entry of a key is found and taken out, a new one
      goes behind it, and each growth turns the entries of every key around. */
  method RunMulti<K(==, !new), V(==, !new)>(size: nat, hashFunc: K -> nat, ops: seq<Op<K, V>>)
    returns (h: Hash<K, V>, answers: seq<Option<V>>)
    ensures h.Valid() && h.isMultimap && h.hashFunc == hashFunc
    ensures Orders(h, MultiRun(Multi(map[], 0, RoundUp(1, size)), ops))
    ensures answers == MultiAnswers(Multi(map[], 0, RoundUp(1, size)), ops)
  {
    hide Table, Concat, HasKey, Those, MultiAfter, MultiAnswer, RoundUp;
    h := new Hash(size, true, hashFunc);
    ghost var start: Multi<K, V> := Multi(map[], 0, RoundUp(1, size));
    answers := [];
    var i := 0;
    while i < |ops|
      invariant i <= |ops| && fresh(h) && fresh(h.buckets) && h.Valid() && h.isMultimap && h.hashFunc == hashFunc
      invariant Orders(h, MultiRun(start, ops[..i])) && answers == MultiAnswers(start, ops[..i])
    {
      var r := PerformMulti(h, ops[i], MultiRun(start, ops[..i]));
      assert ops[..i + 1][..i] == ops[..i];
      answers := answers + [r];
      i := i + 1;
    }
    assert ops[..i] == ops;
  }

  lemma EmptyMap<K(!new), V(!new)>(ms: multiset<Entry<K, V>>, hashFunc: K -> nat)
    requires ms == multiset{}
    ensures Represents(ms, hashFunc, map[])
  {
  }
}
