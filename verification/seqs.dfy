/** What several modules need of sequences. */
module Seqs {

  datatype Option<T> = None | Some(value: T)

  function InsertAt<T>(s: seq<T>, i: nat, x: T): seq<T>
    requires i <= |s|
  {
    s[..i] + [x] + s[i..]
  }

  function RemoveAt<T>(s: seq<T>, i: nat): seq<T>
    requires i < |s|
  {
    s[..i] + s[i + 1..]
  }

  /** The opposite order. */
  function Reversed<T>(s: seq<T>): (r: seq<T>)
    ensures |r| == |s| && forall i :: 0 <= i < |s| ==> r[i] == s[|s| - 1 - i]
  {
    if s == [] then [] else [s[|s| - 1]] + Reversed(s[..|s| - 1])
  }

  /** The parts one after the other. */
  function Concat<T>(parts: seq<seq<T>>): seq<T> {
    if parts == [] then [] else parts[0] + Concat(parts[1..])
  }

  lemma {:induction false} ConcatSplit<T>(parts: seq<seq<T>>, k: nat)
    requires k <= |parts|
    ensures Concat(parts) == Concat(parts[..k]) + Concat(parts[k..])
  {
    if k == 0 {
      assert parts[0..] == parts;
    } else {
      ConcatSplit(parts[1..], k - 1);
      assert parts[..k][1..] == parts[1..][..k - 1];
      assert parts[1..][k - 1..] == parts[k..];
    }
  }

  lemma ConcatAppend<T>(a: seq<seq<T>>, b: seq<seq<T>>)
    ensures Concat(a + b) == Concat(a) + Concat(b)
  {
    ConcatSplit(a + b, |a|);
    assert (a + b)[..|a|] == a && (a + b)[|a|..] == b;
  }

  lemma ConcatOne<T>(part: seq<T>)
    ensures Concat([part]) == part
  {
    assert [part][1..] == [];
  }

  lemma ConcatAround<T>(parts: seq<seq<T>>, k: nat)
    requires k < |parts|
    ensures Concat(parts) == Concat(parts[..k]) + parts[k] + Concat(parts[k + 1..])
  {
    ConcatSplit(parts, k);
    assert parts[k..][1..] == parts[k + 1..];
  }

  /** The last part is the end. */
  lemma ConcatLast<T>(parts: seq<seq<T>>)
    requires parts != []
    ensures Concat(parts) == Concat(parts[..|parts| - 1]) + parts[|parts| - 1]
  {
    var m := |parts| - 1;
    ConcatSplit(parts, m);
    ConcatOne(parts[m]);
    assert parts[m..] == [parts[m]];
  }

  /** No element stands twice in a sequence that counts each once. */
  lemma {:induction false} CountedOnce<T>(s: seq<T>)
    ensures (forall i, j :: 0 <= i < j < |s| ==> s[i] != s[j]) <==> (forall x :: x in s ==> multiset(s)[x] == 1)
  {
    if s != [] {
      var rest := s[1..];
      assert s == [s[0]] + rest;
      assert multiset(s) == multiset{s[0]} + multiset(rest);
      CountedOnce(rest);
      if forall x :: x in s ==> multiset(s)[x] == 1 {
        forall x | x in rest ensures multiset(rest)[x] == 1 && x != s[0] {
          assert x in multiset(rest) && x in s;
        }
        forall i, j | 0 <= i < j < |s| ensures s[i] != s[j] {
          assert s[j] == rest[j - 1] && rest[j - 1] in rest;
          assert i > 0 ==> s[i] == rest[i - 1];
        }
      }
      if forall i, j :: 0 <= i < j < |s| ==> s[i] != s[j] {
        forall i, j | 0 <= i < j < |rest| ensures rest[i] != rest[j] {
          assert s[i + 1] != s[j + 1];
        }
        forall x | x in s ensures multiset(s)[x] == 1 {
          if x in rest {
            var j :| 0 <= j < |rest| && rest[j] == x;
            assert s[0] != s[j + 1];
          } else {
            assert x !in multiset(rest);
          }
        }
      }
    }
  }
}
