/** The configuration tree (configor_value.hpp). An object is a std::map: its members
    are kept in ascending order of their keys, each key once. */
module Json {
  import opened Encoding

  /** The value of a float is not modelled. */
  datatype Json =
    | Null
    | Bool(b: bool)
    | Int(i: int)
    | Float
    | Str(s: seq<byte>)
    | Arr(elems: seq<Json>)
    | Obj(members: seq<Member>)

  datatype Member = Member(key: seq<byte>, value: Json)

  /** The order of std::less on strings: bytewise, a prefix first. */
  predicate Precedes(a: seq<byte>, b: seq<byte>) {
    b != [] && (a == [] || a[0] < b[0] || (a[0] == b[0] && Precedes(a[1..], b[1..])))
  }

  lemma {:induction false} PrecedesIrreflexive(a: seq<byte>)
    ensures !Precedes(a, a)
  {
    if a != [] {
      PrecedesIrreflexive(a[1..]);
    }
  }

  lemma {:induction false} PrecedesTransitive(a: seq<byte>, b: seq<byte>, c: seq<byte>)
    requires Precedes(a, b) && Precedes(b, c)
    ensures Precedes(a, c)
  {
    if a != [] && a[0] == b[0] && b[0] == c[0] {
      PrecedesTransitive(a[1..], b[1..], c[1..]);
    }
  }

  lemma {:induction false} PrecedesTotal(a: seq<byte>, b: seq<byte>)
    ensures a == b || Precedes(a, b) || Precedes(b, a)
  {
    if a != [] && b != [] && a[0] == b[0] {
      PrecedesTotal(a[1..], b[1..]);
      assert a == [a[0]] + a[1..] && b == [b[0]] + b[1..];
    }
  }

  /** The bytes decide at the first place where they differ; a proper prefix comes first. */
  lemma {:induction false} PrecedesIff(a: seq<byte>, b: seq<byte>)
    ensures Precedes(a, b) <==>
            exists n :: 0 <= n <= |a| && n < |b| && a[..n] == b[..n] && (n == |a| || a[n] < b[n])
  {
    if b == [] || a == [] {
      if b != [] {
        assert a[..0] == b[..0];
      }
    } else {
      PrecedesIff(a[1..], b[1..]);
      if Precedes(a, b) && a[0] == b[0] {
        var n :| 0 <= n <= |a[1..]| && n < |b[1..]| && a[1..][..n] == b[1..][..n]
          && (n == |a[1..]| || a[1..][n] < b[1..][n]);
        assert a[..n + 1] == [a[0]] + a[1..][..n] && b[..n + 1] == [b[0]] + b[1..][..n];
      } else if a[0] < b[0] {
        assert a[..0] == b[..0];
      }
      if n :| 0 <= n <= |a| && n < |b| && a[..n] == b[..n] && (n == |a| || a[n] < b[n]) {
        if n > 0 {
          assert a[..n][0] == a[0] && b[..n][0] == b[0];
          assert a[1..][..n - 1] == a[..n][1..] && b[1..][..n - 1] == b[..n][1..];
        }
      }
    }
  }

  /** Before every key of `ms`. */
  predicate PrecedesAll(key: seq<byte>, ms: seq<Member>) {
    forall i :: 0 <= i < |ms| ==> Precedes(key, ms[i].key)
  }

  predicate Ascending(ms: seq<Member>) {
    ms == [] || (PrecedesAll(ms[0].key, ms[1..]) && Ascending(ms[1..]))
  }

  /** `std::map::emplace`: a key that is present keeps its value. */
  function Emplace(ms: seq<Member>, m: Member): seq<Member> {
    if ms == [] then [m]
    else if ms[0].key == m.key then ms
    else if Precedes(m.key, ms[0].key) then [m] + ms
    else [ms[0]] + Emplace(ms[1..], m)
  }

  predicate HasKey(ms: seq<Member>, key: seq<byte>) {
    ms != [] && (ms[0].key == key || HasKey(ms[1..], key))
  }

  lemma {:induction false} EmplaceMembers(ms: seq<Member>, m: Member)
    ensures forall x :: x in Emplace(ms, m) ==> x == m || x in ms
  {
    if ms != [] && ms[0].key != m.key && !Precedes(m.key, ms[0].key) {
      EmplaceMembers(ms[1..], m);
    }
  }

  /** Emplacing keeps the keys ascending. */
  lemma {:induction false} EmplaceAscends(ms: seq<Member>, m: Member)
    requires Ascending(ms)
    ensures Ascending(Emplace(ms, m))
  {
    if ms == [] || ms[0].key == m.key {
    } else if Precedes(m.key, ms[0].key) {
      BeforeAll(m.key, ms);
      assert ([m] + ms)[1..] == ms;
    } else {
      var rest := Emplace(ms[1..], m);
      EmplaceAscends(ms[1..], m);
      EmplaceMembers(ms[1..], m);
      PrecedesTotal(m.key, ms[0].key);
      assert ([ms[0]] + rest)[1..] == rest;
      forall i | 0 <= i < |rest|
        ensures Precedes(ms[0].key, rest[i].key)
      {
        assert rest[i] == m || rest[i] in ms[1..];
      }
    }
  }

  lemma BeforeAll(key: seq<byte>, ms: seq<Member>)
    requires Ascending(ms) && ms != [] && Precedes(key, ms[0].key)
    ensures PrecedesAll(key, ms)
  {
    forall i | 0 <= i < |ms|
      ensures Precedes(key, ms[i].key)
    {
      if i > 0 {
        assert ms[i] == ms[1..][i - 1];
        PrecedesTransitive(key, ms[0].key, ms[i].key);
      }
    }
  }

  lemma {:induction false} BeforeAllIsNew(key: seq<byte>, ms: seq<Member>)
    requires PrecedesAll(key, ms)
    ensures !HasKey(ms, key)
  {
    if ms != [] {
      PrecedesIrreflexive(key);
      assert forall i :: 0 <= i < |ms[1..]| ==> ms[1..][i] == ms[i + 1];
      BeforeAllIsNew(key, ms[1..]);
    }
  }

  /** Emplacing changes nothing when the key is there, and adds one member otherwise. */
  lemma {:induction false} EmplaceAdds(ms: seq<Member>, m: Member)
    requires Ascending(ms)
    ensures HasKey(ms, m.key) ==> Emplace(ms, m) == ms
    ensures !HasKey(ms, m.key) ==> multiset(Emplace(ms, m)) == multiset(ms) + multiset{m}
  {
    if ms == [] || ms[0].key == m.key {
    } else if Precedes(m.key, ms[0].key) {
      BeforeAll(m.key, ms);
      BeforeAllIsNew(m.key, ms);
    } else {
      EmplaceAdds(ms[1..], m);
      assert ms == [ms[0]] + ms[1..];
    }
  }

  /** What the original types guarantee of every tree: std::map keys ascend, integers
      fit in 64 bits. */
  predicate WellTyped(t: Json) {
    match t
    case Int(i) => -0x8000_0000_0000_0000 <= i < 0x8000_0000_0000_0000
    case Arr(vs) => forall v | v in vs :: WellTyped(v)
    case Obj(ms) => Ascending(ms) && forall m | m in ms :: WellTyped(m.value)
    case _ => true
  }
}
