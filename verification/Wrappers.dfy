/** Small things that several modules share: a value that may be missing, lists joined, and decimal digits. */
module Wrappers {
  datatype Option<T> = None | Some(value: T)

  function Digit(d: nat): char
    requires d < 10
  {
    ('0' as int + d) as char
  }

  function Flatten<T>(lists: seq<seq<T>>): seq<T>
  {
    if lists == [] then [] else lists[0] + Flatten(lists[1..])
  }

  lemma {:induction false} FlattenConcat<T>(a: seq<seq<T>>, b: seq<seq<T>>)
    ensures Flatten(a + b) == Flatten(a) + Flatten(b)
  {
    FlattenNone<T>();
    hide Flatten;
    if a == [] {
      assert a + b == b && [] + Flatten(b) == Flatten(b);
    } else {
      FlattenCons(a[0], a[1..]);
      assert a == [a[0]] + a[1..];
      FlattenConcat(a[1..], b);
      FlattenCons(a[0], a[1..] + b);
      assert a + b == [a[0]] + (a[1..] + b);
      assert a[0] + (Flatten(a[1..]) + Flatten(b)) == (a[0] + Flatten(a[1..])) + Flatten(b);
    }
  }

  lemma FlattenCons<T>(a: seq<T>, b: seq<seq<T>>)
    ensures Flatten([a] + b) == a + Flatten(b)
  {
    assert ([a] + b)[1..] == b;
  }

  lemma FlattenNone<T>()
    ensures Flatten<T>([]) == []
  {
  }

  lemma FlattenOne<T>(a: seq<T>)
    ensures Flatten([a]) == a
  {
    FlattenNone<T>();
    FlattenCons(a, []);
    assert [a] + [] == [a];
  }

  lemma FlattenSnoc<T>(all: seq<seq<T>>, n: nat)
    requires n < |all|
    ensures Flatten(all[..n + 1]) == Flatten(all[..n]) + all[n]
  {
    hide Flatten;
    assert all[..n + 1] == all[..n] + [all[n]];
    FlattenConcat(all[..n], [all[n]]);
    FlattenOne(all[n]);
  }
}
