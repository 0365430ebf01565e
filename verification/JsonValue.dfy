/**
 JSON values of json11, and the order of strings its objects are kept in.

 A byte string is a `string` whose characters stand for bytes. `Int` is what the `int` and
 `uint64_t` constructors make, `Double` what the `double` constructor and `strtod` make.
 */
module JsonValue {

  /**
   The double a real number is rounded to, by `strtod` and by the conversion of an integer
   alike. It is left open: what is proved holds for every way of rounding.
   */
  const nearest: real -> real

  datatype Json =
    | Null
    | Int(n: int)
    | Double(r: real)
    | Bool(b: bool)
    | String(s: string)
    | Array(items: seq<Json>)
    | Object(members: seq<Member>)

  /** An object is a `std::map`: its members are kept in the order of their keys. */
  datatype Member = Member(key: string, value: Json)

  /** `a < b` for byte strings, from position `i` on. */
  predicate StringLessFrom(a: string, b: string, i: nat)
    decreases |b| - i
  {
    i < |b| && (i >= |a| || a[i] < b[i] || (a[i] == b[i] && StringLessFrom(a, b, i + 1)))
  }

  predicate StringLess(a: string, b: string) {
    StringLessFrom(a, b, 0)
  }

  ghost predicate KeysAscend(ms: seq<Member>) {
    forall i, j :: 0 <= i < j < |ms| ==> StringLess(ms[i].key, ms[j].key)
  }

  /** The first position whose key is not below `key`. */
  function LowerBound(ms: seq<Member>, key: string, i: nat): (p: nat)
    requires i <= |ms|
    ensures i <= p <= |ms|
    decreases |ms| - i
  {
    if i < |ms| && StringLess(ms[i].key, key) then LowerBound(ms, key, i + 1) else i
  }

  /** `data[key] = value` */
  function Assign(ms: seq<Member>, key: string, value: Json): seq<Member> {
    var p := LowerBound(ms, key, 0);
    if p < |ms| && ms[p].key == key then ms[p := Member(key, value)]
    else ms[..p] + [Member(key, value)] + ms[p..]
  }

  /** Every object inside the value is a proper map. */
  ghost predicate Proper(v: Json)
    decreases v
  {
    match v
    case Array(items) => forall i :: 0 <= i < |items| ==> Proper(items[i])
    case Object(ms) => KeysAscend(ms) && forall i :: 0 <= i < |ms| ==> Proper(ms[i].value)
    case _ => true
  }

  // ---- The order of keys ----

  lemma {:induction false} LessIrreflexive(a: string, i: nat)
    ensures !StringLessFrom(a, a, i)
    decreases |a| - i
  {
    if i < |a| {
      LessIrreflexive(a, i + 1);
    }
  }

  lemma {:induction false} LessTransitive(a: string, b: string, c: string, i: nat)
    requires StringLessFrom(a, b, i) && StringLessFrom(b, c, i)
    ensures StringLessFrom(a, c, i)
    decreases |c| - i
  {
    if i < |a| && a[i] == b[i] && b[i] == c[i] {
      LessTransitive(a, b, c, i + 1);
    }
  }

  /** Strings that agree up to `i` are ordered one way or are equal. */
  lemma {:induction false} LessTotal(a: string, b: string, i: nat)
    requires i <= |a| && i <= |b| && a[..i] == b[..i]
    ensures StringLessFrom(a, b, i) || StringLessFrom(b, a, i) || a == b
    decreases |b| - i
  {
    if i < |a| && i < |b| {
      if a[i] == b[i] {
        assert a[..i + 1] == a[..i] + [a[i]] && b[..i + 1] == b[..i] + [b[i]];
        LessTotal(a, b, i + 1);
      }
    } else if i == |a| && i == |b| {
      assert a == a[..i] && b == b[..i];
    }
  }

  lemma StringOrder(a: string, b: string)
    ensures StringLess(a, b) || StringLess(b, a) || a == b
    ensures !(StringLess(a, b) && StringLess(b, a))
    ensures !StringLess(a, a)
  {
    LessTotal(a, b, 0);
    LessIrreflexive(a, 0);
    if StringLess(a, b) && StringLess(b, a) {
      LessTransitive(a, b, a, 0);
    }
  }

  // ---- Assignment keeps a map a map ----

  lemma {:induction false} LowerBoundSplits(ms: seq<Member>, key: string, i: nat)
    requires i <= |ms| && KeysAscend(ms)
    requires forall j :: 0 <= j < i ==> StringLess(ms[j].key, key)
    ensures var p := LowerBound(ms, key, i);
            && (forall j :: 0 <= j < p ==> StringLess(ms[j].key, key))
            && (forall j :: p <= j < |ms| ==> (ms[j].key == key && j == p) || StringLess(key, ms[j].key))
    decreases |ms| - i
  {
    if i < |ms| {
      StringOrder(ms[i].key, key);
      if StringLess(ms[i].key, key) {
        LowerBoundSplits(ms, key, i + 1);
      } else {
        forall j | i < j < |ms|
          ensures StringLess(key, ms[j].key)
        {
          if ms[i].key != key {
            LessTransitive(key, ms[i].key, ms[j].key, 0);
          }
        }
      }
    }
  }

  lemma InsertKeepsOrder(ms: seq<Member>, r: seq<Member>, p: nat, m: Member)
    requires KeysAscend(ms) && p <= |ms| && |r| == |ms| + 1
    requires r[p] == m
    requires forall j :: 0 <= j < p ==> r[j] == ms[j]
    requires forall j :: p < j < |r| ==> r[j] == ms[j - 1]
    requires forall j :: 0 <= j < p ==> StringLess(ms[j].key, m.key)
    requires forall j :: p <= j < |ms| ==> StringLess(m.key, ms[j].key)
    ensures KeysAscend(r)
  {
  }

  /** Assignment keeps the members in the order of their keys. */
  lemma AssignKeepsOrder(ms: seq<Member>, key: string, value: Json)
    requires KeysAscend(ms)
    ensures KeysAscend(Assign(ms, key, value))
  {
    hide StringLess, LowerBound;
    LowerBoundSplits(ms, key, 0);
    var p, r := LowerBound(ms, key, 0), Assign(ms, key, value);
    if p < |ms| && ms[p].key == key {
      assert forall i :: 0 <= i < |r| ==> r[i].key == ms[i].key;
    } else {
      InsertKeepsOrder(ms, r, p, Member(key, value));
    }
  }

  /** A key above all others goes to the end. */
  lemma AssignLast(ms: seq<Member>, key: string, value: Json)
    requires forall j :: 0 <= j < |ms| ==> StringLess(ms[j].key, key)
    ensures Assign(ms, key, value) == ms + [Member(key, value)]
  {
    LowerBoundAtEnd(ms, key, 0);
    assert ms[..|ms|] == ms && ms[|ms|..] == [];
  }

  lemma {:induction false} LowerBoundAtEnd(ms: seq<Member>, key: string, i: nat)
    requires i <= |ms| && forall j :: 0 <= j < |ms| ==> StringLess(ms[j].key, key)
    ensures LowerBound(ms, key, i) == |ms|
    decreases |ms| - i
  {
    if i < |ms| {
      LowerBoundAtEnd(ms, key, i + 1);
    }
  }

  /** Assignment puts the value under the key, and leaves what is under the other keys. */
  lemma AssignHolds(ms: seq<Member>, key: string, value: Json, m: Member)
    requires KeysAscend(ms)
    ensures m in Assign(ms, key, value) <==> if m.key == key then m.value == value else m in ms
  {
    hide StringLess, LowerBound;
    LowerBoundSplits(ms, key, 0);
    LessIrreflexive(key, 0);
    var p, r := LowerBound(ms, key, 0), Assign(ms, key, value);
    KeyAbsent(ms, key, p);
    if p < |ms| && ms[p].key == key {
      assert forall j :: 0 <= j < |ms| && j != p ==> r[j] == ms[j];
      assert r[p] == Member(key, value);
      assert m in ms && m.key != key ==> exists j :: 0 <= j < |ms| && j != p && r[j] == m;
    } else {
      assert ms == ms[..p] + ms[p..];
      assert m in r <==> m in ms[..p] || m == Member(key, value) || m in ms[p..];
    }
  }

  /** In a map the key stands at its lower bound or nowhere. */
  lemma KeyAbsent(ms: seq<Member>, key: string, p: nat)
    requires p <= |ms| && KeysAscend(ms)
    requires forall j :: 0 <= j < p ==> StringLess(ms[j].key, key)
    requires forall j :: p <= j < |ms| ==> (ms[j].key == key && j == p) || StringLess(key, ms[j].key)
    ensures forall j :: 0 <= j < |ms| && ms[j].key == key ==> j == p
  {
    hide StringLess;
    forall j | 0 <= j < |ms| && ms[j].key == key
      ensures j == p
    {
      StringOrder(key, key);
    }
  }

  /** Two maps with the same members are the same. */
  lemma {:induction false} MapDetermined(a: seq<Member>, b: seq<Member>)
    requires KeysAscend(a) && KeysAscend(b) && forall m :: m in a <==> m in b
    ensures a == b
    decreases |a|
  {
    hide StringLess;
    BothEmpty(a, b);
    if a != [] {
      FirstOfMap(a, b);
      assert a == [a[0]] + a[1..] && b == [b[0]] + b[1..];
      forall m
        ensures m in a[1..] <==> m in b[1..]
      {
        NotAgain(a, m);
        NotAgain(b, m);
      }
      MapDetermined(a[1..], b[1..]);
    }
  }

  lemma BothEmpty(a: seq<Member>, b: seq<Member>)
    requires forall m :: m in a <==> m in b
    ensures a == [] <==> b == []
  {
    if a != [] {
      var m := a[0];
      assert m in a;
    }
    if b != [] {
      var m := b[0];
      assert m in b;
    }
  }

  lemma NotAgain(a: seq<Member>, m: Member)
    requires KeysAscend(a) && a != []
    ensures m in a[1..] <==> m in a && m != a[0]
  {
    hide StringLess;
    StringOrder(a[0].key, a[0].key);
    assert a == [a[0]] + a[1..];
    if m in a[1..] {
      var j :| 0 <= j < |a| - 1 && a[1..][j] == m;
      assert StringLess(a[0].key, a[j + 1].key);
    }
  }

  lemma FirstOfMap(a: seq<Member>, b: seq<Member>)
    requires KeysAscend(a) && KeysAscend(b) && a != [] && b != [] && a[0] in b && b[0] in a
    ensures a[0] == b[0]
  {
    hide StringLess;
    var i :| 0 <= i < |b| && b[i] == a[0];
    var j :| 0 <= j < |a| && a[j] == b[0];
    if i > 0 && j > 0 {
      StringOrder(a[0].key, b[0].key);
    }
  }
}
