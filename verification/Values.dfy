/**
 JSON values as JavaScript holds them after JSON.parse: what is true of them, how they
 print and compare, and what storing them as JSON does to them.
 */
module Values {
  import opened Wrappers

  // --- numbers ---

  // A finite number by the shortest decimal that denotes it, digits * 10^exponent, which
  // is how JavaScript prints it.
  datatype Decimals = Decimal(digits: int, exponent: int)

  type Decimal = d: Decimals | if d.digits == 0 then d.exponent == 0 else d.digits % 10 != 0
    witness Decimal(0, 0)

  function Pow10(n: nat): (r: nat)
    ensures r > 0
  {
    if n == 0 then 1 else 10 * Pow10(n - 1)
  }

  function Digits(n: nat): (s: string)
    ensures s != ""
  {
    (if n < 10 then "" else Digits(n / 10)) + ["0123456789"[n % 10]]
  }

  function Zeros(n: nat): string {
    seq(n, _ => '0')
  }

  // Number::toString of ECMA-262: plain digits up to 21 places, else an exponent.
  function Numeral(d: Decimals): string
    decreases d.digits < 0
  {
    if d.digits < 0 then "-" + Numeral(Decimal(-d.digits, d.exponent))
    else
      var s := Digits(d.digits);
      var n := |s| + d.exponent;
      if |s| <= n <= 21 then s + Zeros(n - |s|)
      else if 0 < n <= 21 then s[..n] + "." + s[n..]
      else if -6 < n <= 0 then "0." + Zeros(-n) + s
      else
        var e := n - 1;
        (if |s| == 1 then s else s[..1] + "." + s[1..])
        + (if e >= 0 then "e+" + Digits(e) else "e-" + Digits(-e))
  }

  predicate AtLeast(d: Decimals, bound: int) {
    if d.exponent >= 0 then d.digits * Pow10(d.exponent) >= bound
    else d.digits >= bound * Pow10(-d.exponent)
  }

  // Prints as an integer that fits 64 bits, which is what json.Unmarshal takes for an int.
  predicate Whole(d: Decimals) {
    d.exponent >= 0 && -0x8000_0000_0000_0000 <= d.digits * Pow10(d.exponent) < 0x8000_0000_0000_0000
  }

  // --- values ---

  // Infinite is what JSON.parse makes of a number beyond the range of doubles.  Null
  // stands for a missing field too.
  datatype Value =
    | Text(text: string)
    | Number(number: Decimal)
    | Infinite(positive: bool)
    | Boolean(on: bool)
    | Null
    | List(items: Items)
    | Object(members: Members)

  datatype Items = NoItem | Item(head: Value, tail: Items)

  datatype Members = NoMember | Member(key: string, value: Value, rest: Members)

  function Find(ms: Members, key: string): Value {
    match ms
    case NoMember => Null
    case Member(k, v, rest) => if k == key then v else Find(rest, key)
  }

  // m.key for a value that is not null.
  function Get(v: Value, key: string): Value {
    if v.Object? then Find(v.members, key) else Null
  }

  predicate Truthy(v: Value) {
    match v
    case Text(t) => t != ""
    case Number(n) => n.digits != 0
    case Boolean(on) => on
    case Null => false
    case _ => true
  }

  // a || b and a && b.
  function Or(a: Value, b: Value): Value {
    if Truthy(a) then a else b
  }

  function And(a: Value, b: Value): Value {
    if Truthy(a) then b else a
  }

  // String(v).  An array prints its items, null as nothing; an object that has its own
  // toString field, which is no function in JSON, throws.
  function Shown(v: Value): Option<string> {
    match v
    case Text(t) => Some(t)
    case Number(n) => Some(Numeral(n))
    case Infinite(positive) => Some(if positive then "Infinity" else "-Infinity")
    case Boolean(on) => Some(if on then "true" else "false")
    case Null => Some("null")
    case List(items) => ShownItems(items)
    case Object(members) => if HasKey(members, "toString") then None else Some("[object Object]")
  }

  function ShownItems(items: Items): Option<string> {
    match items
    case NoItem => Some("")
    case Item(head, tail) =>
      match (if head.Null? then Some("") else Shown(head), ShownItems(tail))
      case (Some(s), Some(rest)) => Some(if tail.NoItem? then s else s + "," + rest)
      case _ => None
  }

  predicate HasKey(ms: Members, key: string) {
    match ms
    case NoMember => false
    case Member(k, _, rest) => k == key || HasKey(rest, key)
  }

  // v printed where it is known to print.
  function Str(v: Value): string {
    match Shown(v)
    case Some(s) => s
    case None => ""
  }

  // a === b for values of two documents: an array or object is never another one's.
  predicate Same(a: Value, b: Value) {
    a == b && !a.List? && !a.Object?
  }

  // --- storing ---

  // JSON.parse(JSON.stringify(v)): an infinite number is stored as null.
  function Kept(v: Value): Value {
    match v
    case Infinite(_) => Null
    case List(items) => List(KeptItems(items))
    case Object(members) => Object(KeptMembers(members))
    case _ => v
  }

  function KeptItems(items: Items): Items {
    match items
    case NoItem => NoItem
    case Item(head, tail) => Item(Kept(head), KeptItems(tail))
  }

  function KeptMembers(ms: Members): Members {
    match ms
    case NoMember => NoMember
    case Member(k, v, rest) => Member(k, Kept(v), KeptMembers(rest))
  }

  // Storing twice is storing once.
  lemma {:induction false} KeptTwice(v: Value)
    ensures Kept(Kept(v)) == Kept(v)
    decreases v
  {
    match v
    case List(items) => KeptItemsTwice(items);
    case Object(members) => KeptMembersTwice(members);
    case _ =>
  }

  lemma {:induction false} KeptItemsTwice(items: Items)
    ensures KeptItems(KeptItems(items)) == KeptItems(items)
    decreases items
  {
    if items.Item? {
      KeptTwice(items.head);
      KeptItemsTwice(items.tail);
    }
  }

  lemma {:induction false} KeptMembersTwice(ms: Members)
    ensures KeptMembers(KeptMembers(ms)) == KeptMembers(ms)
    decreases ms
  {
    if ms.Member? {
      KeptTwice(ms.value);
      KeptMembersTwice(ms.rest);
    }
  }

  // What JSON.parse can return: its numbers are doubles, given by `double`, and no object
  // has a key twice.
  predicate Plain(double: Decimal -> bool, v: Value) {
    match v
    case Number(n) => double(n)
    case List(items) => PlainItems(double, items)
    case Object(members) => PlainMembers(double, members)
    case _ => true
  }

  predicate PlainItems(double: Decimal -> bool, items: Items) {
    match items
    case NoItem => true
    case Item(head, tail) => Plain(double, head) && PlainItems(double, tail)
  }

  predicate PlainMembers(double: Decimal -> bool, ms: Members) {
    match ms
    case NoMember => true
    case Member(k, v, rest) => Plain(double, v) && !HasKey(rest, k) && PlainMembers(double, rest)
  }

  lemma {:induction false} KeptPlain(double: Decimal -> bool, v: Value)
    requires Plain(double, v)
    ensures Plain(double, Kept(v))
    decreases v
  {
    match v
    case List(items) => KeptItemsPlain(double, items);
    case Object(members) => KeptMembersPlain(double, members);
    case _ =>
  }

  lemma {:induction false} KeptItemsPlain(double: Decimal -> bool, items: Items)
    requires PlainItems(double, items)
    ensures PlainItems(double, KeptItems(items))
    decreases items
  {
    if items.Item? {
      KeptPlain(double, items.head);
      KeptItemsPlain(double, items.tail);
    }
  }

  lemma {:induction false} KeptMembersPlain(double: Decimal -> bool, ms: Members)
    requires PlainMembers(double, ms)
    ensures PlainMembers(double, KeptMembers(ms))
    ensures forall k :: HasKey(KeptMembers(ms), k) <==> HasKey(ms, k)
    decreases ms
  {
    if ms.Member? {
      KeptPlain(double, ms.value);
      KeptMembersPlain(double, ms.rest);
    }
  }

  lemma {:induction false} FoundPlain(double: Decimal -> bool, ms: Members, key: string)
    requires PlainMembers(double, ms)
    ensures Plain(double, Find(ms, key))
  {
    if ms.Member? && ms.key != key {
      FoundPlain(double, ms.rest, key);
    }
  }

  lemma GetPlain(double: Decimal -> bool, v: Value, key: string)
    requires Plain(double, v)
    ensures Plain(double, Get(v, key))
  {
    if v.Object? {
      FoundPlain(double, v.members, key);
    }
  }

  // --- examples of ECMA-262 ---

  // Whole numbers up to 21 digits print plainly, larger and small ones with an exponent.
  lemma NumeralExamples()
    ensures Numeral(Decimal(0, 0)) == "0" && Numeral(Decimal(12, 1)) == "120" && Numeral(Decimal(-3, 0)) == "-3"
    ensures Numeral(Decimal(15, -1)) == "1.5" && Numeral(Decimal(5, -2)) == "0.05"
    ensures Numeral(Decimal(1, 21)) == "1e+21" && Numeral(Decimal(15, -8)) == "1.5e-7"
  {
    DigitExamples();
    assert Zeros(1) == "0" && Zeros(0) == "";
    assert "12" + "0" == "120" && "-" + "3" == "-3";
    assert "15"[..1] == "1" && "15"[1..] == "5" && "1" + "." + "5" == "1.5";
    assert "0." + "0" + "5" == "0.05";
    assert "1" + ("e+" + "21") == "1e+21" && "1.5" + ("e-" + "7") == "1.5e-7";
  }

  lemma DigitExamples()
    ensures Digits(0) == "0" && Digits(1) == "1" && Digits(3) == "3" && Digits(5) == "5" && Digits(7) == "7"
    ensures Digits(12) == "12" && Digits(15) == "15" && Digits(21) == "21"
  {
    assert Digits(2) == "2";
    assert Digits(12) == Digits(1) + ["0123456789"[2]];
    assert Digits(15) == Digits(1) + ["0123456789"[5]];
    assert Digits(21) == Digits(2) + ["0123456789"[1]];
  }

  // What is truthy, and what String() makes of it.
  lemma ValueExamples()
    ensures !Truthy(Null) && !Truthy(Text("")) && !Truthy(Number(Decimal(0, 0))) && !Truthy(Boolean(false))
    ensures Truthy(Text("a")) && Truthy(Number(Decimal(1, 0))) && Truthy(Boolean(true)) && Truthy(Infinite(false))
    ensures Truthy(List(NoItem)) && Truthy(Object(NoMember))
    ensures Shown(Text("a")) == Some("a") && Shown(Boolean(true)) == Some("true") && Shown(Infinite(true)) == Some("Infinity")
    ensures Shown(List(Item(Text("a"), Item(Null, Item(Text("b"), NoItem))))) == Some("a,,b")
    ensures Shown(Object(NoMember)) == Some("[object Object]")
    ensures Shown(Object(Member("toString", Null, NoMember))) == None
    ensures Same(Text("1"), Text("1")) && !Same(Text("1"), Number(Decimal(1, 0))) && !Same(List(NoItem), List(NoItem))
    ensures Kept(Infinite(true)) == Null && Kept(Text("a")) == Text("a")
  {
    var b := Item(Text("b"), NoItem);
    assert ShownItems(b) == Some("b");
    assert ShownItems(Item(Null, b)) == Some("" + "," + "b");
    assert ShownItems(Item(Text("a"), Item(Null, b))) == Some("a" + "," + ("" + "," + "b"));
    assert "a" + "," + ("" + "," + "b") == "a,,b";
  }
}
