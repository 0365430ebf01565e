/** The comparison operators of json11. */
module JsonOrder {
  import opened JsonRoundTrip
  import opened JsonSyntax
  import opened JsonText
  import opened JsonValue

  /** The type tag, by which values of different types are ordered. */
  function Tag(v: Json): nat {
    match v
    case Null => 0
    case Int(_) => 1
    case Double(_) => 1
    case Bool(_) => 2
    case String(_) => 3
    case Array(_) => 4
    case Object(_) => 5
  }

  // ---- Equality ----

  /** `operator==` */
  predicate Eq(a: Json, b: Json)
    decreases a, 0
  {
    Tag(a) == Tag(b) &&
    match a
    case Null => true
    case Int(_) => Num(a) == Num(b)
    case Double(_) => Num(a) == Num(b)
    case Bool(x) => x == b.b
    case String(s) => s == b.s
    case Array(xs) => |xs| == |b.items| && EqItems(xs, b.items, 0)
    case Object(ms) => |ms| == |b.members| && EqMembers(ms, b.members, 0)
  }

  predicate EqItems(xs: seq<Json>, ys: seq<Json>, i: nat)
    requires i <= |xs| == |ys|
    decreases xs, |xs| - i
  {
    i == |xs| || (Eq(xs[i], ys[i]) && EqItems(xs, ys, i + 1))
  }

  predicate EqMembers(xs: seq<Member>, ys: seq<Member>, i: nat)
    requires i <= |xs| == |ys|
    decreases xs, |xs| - i
  {
    i == |xs| || (xs[i].key == ys[i].key && Eq(xs[i].value, ys[i].value) && EqMembers(xs, ys, i + 1))
  }

  // ---- Order ----

  /** The number of values inside a value, for the termination of comparisons. */
  ghost function Size(v: Json): (n: nat)
    ensures n > 0
    decreases v, 0
  {
    match v
    case Array(items) => 1 + ItemsSize(items, 0)
    case Object(ms) => 1 + MembersSize(ms, 0)
    case _ => 1
  }

  ghost function ItemsSize(items: seq<Json>, i: nat): nat
    decreases items, |items| - i
  {
    if i >= |items| then 0 else Size(items[i]) + ItemsSize(items, i + 1)
  }

  ghost function MembersSize(ms: seq<Member>, i: nat): nat
    decreases ms, |ms| - i
  {
    if i >= |ms| then 0 else Size(ms[i].value) + MembersSize(ms, i + 1)
  }

  /** `operator<` */
  predicate Less(a: Json, b: Json)
    decreases Size(a) + Size(b), 0
  {
    if Tag(a) != Tag(b) then Tag(a) < Tag(b)
    else
      match a
      case Null => false
      case Int(_) => Num(a) < Num(b)
      case Double(_) => Num(a) < Num(b)
      case Bool(x) => !x && b.b
      case String(s) => StringLess(s, b.s)
      case Array(xs) => LessItems(xs, b.items, 0)
      case Object(ms) => LessMembers(ms, b.members, 0)
  }

  /** Vectors are compared lexicographically. */
  predicate LessItems(xs: seq<Json>, ys: seq<Json>, i: nat)
    decreases ItemsSize(xs, i) + ItemsSize(ys, i), 1
  {
    i < |ys| &&
    (|| i >= |xs|
     || Less(xs[i], ys[i])
     || (!Less(ys[i], xs[i]) && LessItems(xs, ys, i + 1)))
  }

  /** `operator<` of a pair of a key and a value */
  predicate LessMember(x: Member, y: Member)
    decreases Size(x.value) + Size(y.value), 1
  {
    StringLess(x.key, y.key) || (!StringLess(y.key, x.key) && Less(x.value, y.value))
  }

  /** Maps are compared lexicographically, member by member. */
  predicate LessMembers(xs: seq<Member>, ys: seq<Member>, i: nat)
    decreases MembersSize(xs, i) + MembersSize(ys, i), 2
  {
    i < |ys| &&
    (|| i >= |xs|
     || LessMember(xs[i], ys[i])
     || (!LessMember(ys[i], xs[i]) && LessMembers(xs, ys, i + 1)))
  }

  // ---- The order is strict and total up to equality ----

  /** Of two values one is less, or the other is, or they are equal; never two of these. */
  lemma {:induction false} Trichotomy(a: Json, b: Json)
    ensures Eq(a, b) <==> !Less(a, b) && !Less(b, a)
    ensures !(Less(a, b) && Less(b, a))
    decreases Size(a) + Size(b), 0
  {
    if Tag(a) == Tag(b) {
      match a {
        case String(s) => StringOrder(s, b.s);
        case Array(xs) => TrichotomyItems(xs, b.items, 0);
        case Object(ms) => TrichotomyMembers(ms, b.members, 0);
        case _ =>
      }
    }
  }

  lemma {:induction false} TrichotomyItems(xs: seq<Json>, ys: seq<Json>, i: nat)
    requires i <= |xs| && i <= |ys|
    ensures (|xs| == |ys| && EqItems(xs, ys, i)) <==> !LessItems(xs, ys, i) && !LessItems(ys, xs, i)
    ensures !(LessItems(xs, ys, i) && LessItems(ys, xs, i))
    decreases ItemsSize(xs, i) + ItemsSize(ys, i), 1
  {
    if i < |xs| && i < |ys| {
      Trichotomy(xs[i], ys[i]);
      TrichotomyItems(xs, ys, i + 1);
    }
  }

  lemma {:induction false} TrichotomyMembers(xs: seq<Member>, ys: seq<Member>, i: nat)
    requires i <= |xs| && i <= |ys|
    ensures (|xs| == |ys| && EqMembers(xs, ys, i)) <==> !LessMembers(xs, ys, i) && !LessMembers(ys, xs, i)
    ensures !(LessMembers(xs, ys, i) && LessMembers(ys, xs, i))
    decreases MembersSize(xs, i) + MembersSize(ys, i), 2
  {
    if i < |xs| && i < |ys| {
      StringOrder(xs[i].key, ys[i].key);
      Trichotomy(xs[i].value, ys[i].value);
      TrichotomyMembers(xs, ys, i + 1);
    }
  }

  /** "Not greater" is transitive, and strict as soon as one of the steps is. */
  lemma {:induction false} NotGreaterTransitive(a: Json, b: Json, c: Json)
    requires !Less(b, a) && !Less(c, b)
    ensures !Less(c, a)
    ensures Less(a, b) || Less(b, c) ==> Less(a, c)
    decreases Size(a) + Size(b) + Size(c), 0
  {
    if Tag(a) == Tag(b) == Tag(c) {
      match a {
        case String(s) => StringNotGreater(s, b.s, c.s);
        case Array(xs) => NotGreaterItems(xs, b.items, c.items, 0);
        case Object(ms) => NotGreaterMembers(ms, b.members, c.members, 0);
        case _ =>
      }
    }
  }

  lemma StringNotGreater(a: string, b: string, c: string)
    requires !StringLess(b, a) && !StringLess(c, b)
    ensures !StringLess(c, a)
    ensures StringLess(a, b) || StringLess(b, c) ==> StringLess(a, c)
  {
    StringOrder(a, b);
    StringOrder(b, c);
    StringOrder(a, c);
    if StringLess(a, b) && StringLess(b, c) {
      LessTransitive(a, b, c, 0);
    }
  }

  lemma {:induction false} NotGreaterItems(xs: seq<Json>, ys: seq<Json>, zs: seq<Json>, i: nat)
    requires !LessItems(ys, xs, i) && !LessItems(zs, ys, i)
    ensures !LessItems(zs, xs, i)
    ensures LessItems(xs, ys, i) || LessItems(ys, zs, i) ==> LessItems(xs, zs, i)
    decreases ItemsSize(xs, i) + ItemsSize(ys, i) + ItemsSize(zs, i), 1
  {
    if i < |xs| && i < |ys| && i < |zs| {
      NotGreaterTransitive(xs[i], ys[i], zs[i]);
      if !Less(xs[i], ys[i]) && !Less(ys[i], zs[i]) {
        NotGreaterItems(xs, ys, zs, i + 1);
        NotGreaterTransitive(zs[i], ys[i], xs[i]);
      } else {
        Trichotomy(xs[i], zs[i]);
      }
    }
  }

  lemma {:induction false} NotGreaterMember(x: Member, y: Member, z: Member)
    requires !LessMember(y, x) && !LessMember(z, y)
    ensures !LessMember(z, x)
    ensures LessMember(x, y) || LessMember(y, z) ==> LessMember(x, z)
    decreases Size(x.value) + Size(y.value) + Size(z.value), 1
  {
    StringOrder(x.key, y.key);
    StringOrder(y.key, z.key);
    StringNotGreater(x.key, y.key, z.key);
    StringOrder(x.key, z.key);
    if x.key == y.key == z.key {
      NotGreaterTransitive(x.value, y.value, z.value);
    }
  }

  lemma LessMemberAsymmetric(x: Member, y: Member)
    ensures !(LessMember(x, y) && LessMember(y, x))
  {
    StringOrder(x.key, y.key);
    Trichotomy(x.value, y.value);
  }

  lemma {:induction false} NotGreaterMembers(xs: seq<Member>, ys: seq<Member>, zs: seq<Member>, i: nat)
    requires !LessMembers(ys, xs, i) && !LessMembers(zs, ys, i)
    ensures !LessMembers(zs, xs, i)
    ensures LessMembers(xs, ys, i) || LessMembers(ys, zs, i) ==> LessMembers(xs, zs, i)
    decreases MembersSize(xs, i) + MembersSize(ys, i) + MembersSize(zs, i), 2
  {
    if i < |xs| && i < |ys| && i < |zs| {
      NotGreaterMember(xs[i], ys[i], zs[i]);
      if !LessMember(xs[i], ys[i]) && !LessMember(ys[i], zs[i]) {
        NotGreaterMembers(xs, ys, zs, i + 1);
        NotGreaterMember(zs[i], ys[i], xs[i]);
      } else {
        LessMemberAsymmetric(xs[i], zs[i]);
      }
    }
  }

  /** `operator<` is a strict order, `operator==` an equivalence, and each respects the other. */
  lemma StrictOrder(a: Json, b: Json, c: Json)
    ensures !Less(a, a) && Eq(a, a) && (Eq(a, b) <==> Eq(b, a))
    ensures Less(a, b) && Less(b, c) ==> Less(a, c)
    ensures Eq(a, b) && Eq(b, c) ==> Eq(a, c)
    ensures Eq(a, b) && Less(b, c) ==> Less(a, c)
    ensures Less(a, b) && Eq(b, c) ==> Less(a, c)
  {
    hide Less, Eq;
    Trichotomy(a, a);
    Trichotomy(a, b);
    Trichotomy(b, a);
    Trichotomy(b, c);
    Trichotomy(a, c);
    if !Less(b, a) && !Less(c, b) {
      NotGreaterTransitive(a, b, c);
    }
    if !Less(b, c) && !Less(a, b) {
      NotGreaterTransitive(c, b, a);
    }
  }

  // ---- The value read back is equal to the value written ----

  /** Reading numbers back, integers as doubles among them, does not make a value different. */
  lemma {:induction false} NormEqual(v: Json, fmt: real -> string)
    requires Printable(v, fmt)
    ensures Eq(v, Norm(v, fmt))
    decreases v, 0
  {
    match v {
      case Array(items) => NormItemsEqual(items, 0, fmt);
      case Object(ms) => NormMembersEqual(ms, 0, fmt);
      case _ =>
    }
  }

  lemma {:induction false} NormItemsEqual(items: seq<Json>, i: nat, fmt: real -> string)
    requires i <= |items| && forall k :: 0 <= k < |items| ==> Printable(items[k], fmt)
    ensures EqItems(items, NormItems(items, fmt), i)
    decreases items, |items| - i
  {
    if i < |items| {
      NormEqual(items[i], fmt);
      NormItemsEqual(items, i + 1, fmt);
    }
  }

  lemma {:induction false} NormMembersEqual(ms: seq<Member>, i: nat, fmt: real -> string)
    requires i <= |ms| && forall k :: 0 <= k < |ms| ==> Printable(ms[k].value, fmt)
    ensures EqMembers(ms, NormMembers(ms, fmt), i)
    decreases ms, |ms| - i
  {
    if i < |ms| {
      NormEqual(ms[i].value, fmt);
      NormMembersEqual(ms, i + 1, fmt);
    }
  }

  /** Parsing what was dumped gives an equal value, or fails on a value that is nested too deep. */
  lemma RoundTripEqual(v: Json, comments: bool, fmt: real -> string)
    requires Printable(v, fmt) && Proper(v)
    ensures var r := Document(Text(v, fmt), comments);
            && (r.Ok? <==> Depth(v) <= MAX_DEPTH)
            && (r.Ok? ==> r.pos == |Text(v, fmt)| && Eq(v, r.value))
  {
    hide Document, Text, Printable, Proper, Eq;
    RoundTrip(v, comments, fmt);
    NormEqual(v, fmt);
  }

  // ---- What the order is ----

  /** The first position at which two byte strings differ decides, or the shorter one is less. */
  lemma {:induction false} StringsLexicographic(a: string, b: string, i: nat)
    requires i <= |a| && i <= |b| && a[..i] == b[..i]
    ensures StringLessFrom(a, b, i)
       <==> exists k :: 0 <= k <= |a| && k < |b| && a[..k] == b[..k] && (k == |a| || a[k] < b[k])
    decreases |b| - i
  {
    if i < |a| && i < |b| && a[i] == b[i] {
      assert a[..i + 1] == a[..i] + [a[i]] && b[..i + 1] == b[..i] + [b[i]];
      StringsLexicographic(a, b, i + 1);
    } else if i < |b| && (i == |a| || a[i] < b[i]) {
      assert a[..i] == b[..i];
    } else {
      forall k | 0 <= k <= |a| && k < |b| && a[..k] == b[..k] && (k == |a| || a[k] < b[k])
        ensures false
      {
        PrefixAt(a, b, i, k);
      }
    }
  }

  lemma PrefixAt(a: string, b: string, i: nat, k: nat)
    requires i <= |a| && i <= |b| && k <= |a| && k <= |b| && a[..i] == b[..i] && a[..k] == b[..k]
    ensures i < k ==> a[i] == b[i]
    ensures k < i ==> a[k] == b[k]
  {
    assert i < k ==> a[..k][i] == b[..k][i];
    assert k < i ==> a[..i][k] == b[..i][k];
  }

  /** Before position `k` the items are equal; there the first array ends or has the lesser item. */
  ghost predicate ItemsDecide(xs: seq<Json>, ys: seq<Json>, k: nat) {
    && k <= |xs| && k < |ys|
    && (forall j :: 0 <= j < k ==> Eq(xs[j], ys[j]))
    && (k == |xs| || Less(xs[k], ys[k]))
  }

  /** Before position `k` the members are equal; there the first map ends, or has the lesser key or value. */
  ghost predicate MembersDecide(xs: seq<Member>, ys: seq<Member>, k: nat) {
    && k <= |xs| && k < |ys|
    && (forall j :: 0 <= j < k ==> xs[j].key == ys[j].key && Eq(xs[j].value, ys[j].value))
    && (|| k == |xs|
        || StringLess(xs[k].key, ys[k].key)
        || (xs[k].key == ys[k].key && Less(xs[k].value, ys[k].value)))
  }

  /** The first position at which two arrays differ decides, or the shorter one is less. */
  lemma {:induction false} ItemsLexicographic(xs: seq<Json>, ys: seq<Json>, i: nat)
    requires i <= |xs| && i <= |ys| && forall j :: 0 <= j < i ==> Eq(xs[j], ys[j])
    ensures LessItems(xs, ys, i) <==> exists k :: ItemsDecide(xs, ys, k)
    decreases |ys| - i
  {
    hide Less, Eq;
    if i < |xs| && i < |ys| {
      Trichotomy(xs[i], ys[i]);
    }
    if i < |xs| && i < |ys| && Eq(xs[i], ys[i]) {
      ItemsLexicographic(xs, ys, i + 1);
    } else if i < |ys| && (i == |xs| || Less(xs[i], ys[i])) {
      assert ItemsDecide(xs, ys, i);
    } else {
      forall k: nat ensures !ItemsDecide(xs, ys, k) {
        if k < i { Trichotomy(xs[k], ys[k]); }
      }
    }
  }

  /** The same for objects, by their keys and then by their values. */
  lemma {:induction false} MembersLexicographic(xs: seq<Member>, ys: seq<Member>, i: nat)
    requires i <= |xs| && i <= |ys|
    requires forall j :: 0 <= j < i ==> xs[j].key == ys[j].key && Eq(xs[j].value, ys[j].value)
    ensures LessMembers(xs, ys, i) <==> exists k :: MembersDecide(xs, ys, k)
    decreases |ys| - i
  {
    hide Less, Eq, StringLess;
    if i < |xs| && i < |ys| {
      StringOrder(xs[i].key, ys[i].key);
      Trichotomy(xs[i].value, ys[i].value);
    }
    if i < |xs| && i < |ys| && xs[i].key == ys[i].key && Eq(xs[i].value, ys[i].value) {
      MembersLexicographic(xs, ys, i + 1);
    } else if i < |ys| && (i == |xs| || LessMember(xs[i], ys[i])) {
      assert MembersDecide(xs, ys, i);
    } else {
      forall k: nat ensures !MembersDecide(xs, ys, k) {
        if k < i {
          StringOrder(xs[k].key, ys[k].key);
          Trichotomy(xs[k].value, ys[k].value);
        }
      }
    }
  }

  /** Null, numbers, booleans, strings, arrays, objects come in this order; numbers go by their doubles. */
  lemma OrderOfTypes(n: int, r: real, b: bool, s: string, xs: seq<Json>, ms: seq<Member>)
    ensures Less(Null, Int(n)) && Less(Null, Double(r)) && Less(Int(n), Bool(b)) && Less(Double(r), Bool(b))
    ensures Less(Bool(b), String(s)) && Less(String(s), Array(xs)) && Less(Array(xs), Object(ms))
    ensures Less(Int(n), Double(r)) <==> nearest(n as real) < r
    ensures Less(Double(r), Int(n)) <==> r < nearest(n as real)
    ensures Less(Bool(false), Bool(true))
  {
  }

  /** Strings, arrays and objects are ordered lexicographically. */
  lemma LexicographicOrder(s: string, t: string, xs: seq<Json>, ys: seq<Json>, ms: seq<Member>, os: seq<Member>)
    ensures Less(String(s), String(t))
       <==> exists k :: 0 <= k <= |s| && k < |t| && s[..k] == t[..k] && (k == |s| || s[k] < t[k])
    ensures Less(Array(xs), Array(ys)) <==> exists k :: ItemsDecide(xs, ys, k)
    ensures Less(Object(ms), Object(os)) <==> exists k :: MembersDecide(ms, os, k)
  {
    hide Less, Eq, LessItems, LessMembers, StringLessFrom;
    LessUnfolds(s, t, xs, ys, ms, os);
    StringsLexicographic(s, t, 0);
    ItemsLexicographic(xs, ys, 0);
    MembersLexicographic(ms, os, 0);
  }

  lemma LessUnfolds(s: string, t: string, xs: seq<Json>, ys: seq<Json>, ms: seq<Member>, os: seq<Member>)
    ensures Less(String(s), String(t)) <==> StringLessFrom(s, t, 0)
    ensures Less(Array(xs), Array(ys)) <==> LessItems(xs, ys, 0)
    ensures Less(Object(ms), Object(os)) <==> LessMembers(ms, os, 0)
  {
  }
}
