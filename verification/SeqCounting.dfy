/** Counting, removal and insertion on sequences, shared by the models. */
module SeqCounting {

  function CountIf<T>(s: seq<T>, f: T -> bool): nat
  {
    if s == [] then 0 else (if f(s[0]) then 1 else 0) + CountIf(s[1..], f)
  }

  function RemoveAt<T>(s: seq<T>, i: nat): seq<T>
    requires i < |s|
  {
    s[..i] + s[i + 1..]
  }

  function InsertAt<T>(s: seq<T>, i: nat, x: T): seq<T>
    requires i <= |s|
  {
    s[..i] + [x] + s[i..]
  }

  lemma {:induction false} CountConcat<T>(a: seq<T>, b: seq<T>, f: T -> bool)
    ensures CountIf(a + b, f) == CountIf(a, f) + CountIf(b, f)
  {
    if a == [] {
      assert a + b == b;
    } else {
      assert (a + b)[1..] == a[1..] + b;
      CountConcat(a[1..], b, f);
    }
  }

  lemma CountRemoveAt<T>(s: seq<T>, i: nat, f: T -> bool)
    requires i < |s|
    ensures CountIf(s, f) == CountIf(RemoveAt(s, i), f) + (if f(s[i]) then 1 else 0)
  {
    assert s == s[..i] + ([s[i]] + s[i + 1..]);
    CountConcat(s[..i], [s[i]] + s[i + 1..], f);
    CountConcat([s[i]], s[i + 1..], f);
    CountConcat(s[..i], s[i + 1..], f);
    assert CountIf([s[i]], f) == if f(s[i]) then 1 else 0;
  }

  lemma CountInsertAt<T>(s: seq<T>, i: nat, x: T, f: T -> bool)
    requires i <= |s|
    ensures CountIf(InsertAt(s, i, x), f) == CountIf(s, f) + (if f(x) then 1 else 0)
  {
    assert InsertAt(s, i, x)[..i] == s[..i] && InsertAt(s, i, x)[i + 1..] == s[i..];
    assert RemoveAt(InsertAt(s, i, x), i) == s;
    CountRemoveAt(InsertAt(s, i, x), i, f);
  }

  lemma {:induction false} CountIsZero<T>(s: seq<T>, f: T -> bool)
    ensures CountIf(s, f) == 0 <==> forall x | x in s :: !f(x)
  {
    if s != [] {
      CountIsZero(s[1..], f);
      assert s == [s[0]] + s[1..];
    }
  }

  /** A counted property with at most one witness position has count at most one. */
  lemma {:induction false} CountAtMostOne<T>(s: seq<T>, f: T -> bool)
    requires forall i, j | 0 <= i < j < |s| :: !(f(s[i]) && f(s[j]))
    ensures CountIf(s, f) <= 1
  {
    if s != [] {
      if f(s[0]) {
        forall x | x in s[1..] ensures !f(x) {
          var k :| 0 <= k < |s[1..]| && s[1..][k] == x;
          assert s[k + 1] == x;
        }
        CountIsZero(s[1..], f);
      } else {
        CountAtMostOne(s[1..], f);
      }
    }
  }
}
