/** What printing and parsing make of a value: floats may come back in another form. */
module JsonReread {
  import opened Digits
  import opened Json
  import opened SortedMap
  import opened Wrappers

  /** The integer a float's text reads as: one without a fraction, within `i64`. */
  function IntegerOf(f: Float64): Option<Int64> {
    var digits := f[SignLength(f)..];
    if f == "null" || !AllDigits(digits) then None
    else
      var i: int := if SignLength(f) == 1 then 0 - Value(digits) else Value(digits);
      if -0x8000_0000_0000_0000 <= i < 0x8000_0000_0000_0000 then Some(i) else None
  }

  function RereadFloat(f: Float64): Json {
    if f == "null" then Null
    else
      match IntegerOf(f)
      case Some(i) => Int(i)
      case None => Float(f)
  }

  function Reread(v: Json): Json
    decreases v, 0
  {
    match v
    case Float(f) => RereadFloat(f)
    case Arr(items) => Arr(RereadItems(items))
    case Obj(members) => Obj(RereadMembers(members))
    case _ => v
  }

  function RereadItems(items: seq<Json>): (r: seq<Json>)
    ensures |r| == |items| && forall i | 0 <= i < |r| :: r[i] == Reread(items[i])
    decreases items, 1
  {
    if items == [] then [] else [Reread(items[0])] + RereadItems(items[1..])
  }

  function RereadMembers(members: seq<Entry<Json>>): (r: seq<Entry<Json>>)
    ensures |r| == |members|
    ensures forall i | 0 <= i < |r| :: r[i].key == members[i].key && r[i].value == Reread(members[i].value)
    decreases members, 1
  {
    if members == [] then []
    else [Entry(members[0].key, Reread(members[0].value))] + RereadMembers(members[1..])
  }

  // ----- values that come back the same -----

  /** Every float is finite and keeps a fraction, or is an integer beyond `i64`. */
  ghost predicate Stable(v: Json)
    decreases v
  {
    match v
    case Float(f) => f != "null" && IntegerOf(f).None?
    case Arr(items) => forall i | 0 <= i < |items| :: Stable(items[i])
    case Obj(members) => forall i | 0 <= i < |members| :: Stable(members[i].value)
    case _ => true
  }

  lemma {:induction false} RereadStable(v: Json)
    ensures Reread(v) == v <==> Stable(v)
    decreases v
  {
    match v
    case Arr(items) =>
      forall i | 0 <= i < |items|
        ensures Reread(items[i]) == items[i] <==> Stable(items[i])
      {
        RereadStable(items[i]);
      }
      assert RereadItems(items) == items <==> forall i | 0 <= i < |items| :: Reread(items[i]) == items[i];
    case Obj(members) =>
      forall i | 0 <= i < |members|
        ensures Reread(members[i].value) == members[i].value <==> Stable(members[i].value)
      {
        RereadStable(members[i].value);
      }
      var r := RereadMembers(members);
      assert r == members <==> forall i | 0 <= i < |members| :: r[i].value == members[i].value;
    case _ =>
  }

  lemma {:induction false} FloatFreeStable(v: Json)
    requires FloatFree(v)
    ensures Stable(v)
    decreases v
  {
    match v
    case Arr(items) =>
      forall i | 0 <= i < |items| {
        FloatFreeStable(items[i]);
      }
    case Obj(members) =>
      forall i | 0 <= i < |members| {
        FloatFreeStable(members[i].value);
      }
    case _ =>
  }

  lemma {:induction false} RereadFloatFree(v: Json)
    requires FloatFree(v)
    ensures Reread(v) == v
  {
    FloatFreeStable(v);
    RereadStable(v);
  }

  // ----- values that print the same -----

  /** Negative zeros, the one float whose text changes. */
  function NegativeZeros(v: Json): nat
    decreases v, 0
  {
    match v
    case Float(f) => if f == "-0" then 1 else 0
    case Arr(items) => NegativeZerosOf(items)
    case Obj(members) => NegativeZerosIn(members)
    case _ => 0
  }

  function NegativeZerosOf(items: seq<Json>): nat
    decreases items, 1
  {
    if items == [] then 0 else NegativeZeros(items[0]) + NegativeZerosOf(items[1..])
  }

  function NegativeZerosIn(members: seq<Entry<Json>>): nat
    decreases members, 1
  {
    if members == [] then 0 else NegativeZeros(members[0].value) + NegativeZerosIn(members[1..])
  }

  /** The digits of a float without a fraction are in canonical form. */
  lemma IntegerDigits(f: Float64)
    requires IntegerOf(f).Some?
    ensures var digits := f[SignLength(f)..];
            && digits != "" && AllDigits(digits) && Decimal(Value(digits)) == digits
            && (Value(digits) == 0 ==> digits == "0")
  {
    var digits := f[SignLength(f)..];
    DigitCountOf(digits, "");
    assert digits + "" == digits;
    DecimalOfValue(digits);
    if Value(digits) == 0 { assert digits == "0"; }
  }

  lemma {:induction false} ValueOfZero(digits: string)
    requires digits == "0"
    ensures Value(digits) == 0
  {
    assert digits[..0] == "";
  }

  /** The decimal text of a sign and canonical digits. */
  lemma PrintSigned(digits: string, v: nat, i: Int64, negative: bool)
    requires Decimal(v) == digits && i == if negative then 0 - v else v
    ensures PrintInt(i) == if negative && v != 0 then "-" + digits else digits
  {
  }

  lemma PrintRereadFloat(f: Float64)
    ensures |Print(RereadFloat(f))| + (if f == "-0" then 1 else 0) == |f|
    ensures f != "-0" ==> Print(RereadFloat(f)) == f
  {
    var digits := f[SignLength(f)..];
    assert f == if SignLength(f) == 1 then "-" + digits else digits;
    if f == "-0" {
      assert digits == "0";
      ValueOfZero(digits);
      assert IntegerOf(f) == Some(0);
    }
    match IntegerOf(f)
    case Some(i) =>
      IntegerDigits(f);
      PrintSigned(digits, Value(digits), i, SignLength(f) == 1);
      assert Print(RereadFloat(f)) == PrintInt(i);
    case None =>
      assert Print(RereadFloat(f)) == f;
  }

  /** Printing what came back gives the text again, one character shorter for each negative zero. */
  lemma {:induction false} PrintReread(v: Json)
    ensures |Print(Reread(v))| + NegativeZeros(v) == |Print(v)|
    ensures NegativeZeros(v) == 0 ==> Print(Reread(v)) == Print(v)
    decreases v, 0
  {
    match v
    case Float(f) => PrintRereadFloat(f);
    case Arr(items) => PrintRereadItems(items, true);
    case Obj(members) => PrintRereadMembers(members, true);
    case _ =>
  }

  lemma {:induction false} PrintRereadItems(items: seq<Json>, first: bool)
    ensures |PrintItems(RereadItems(items), first)| + NegativeZerosOf(items) == |PrintItems(items, first)|
    ensures NegativeZerosOf(items) == 0 ==> PrintItems(RereadItems(items), first) == PrintItems(items, first)
    decreases items, 1
  {
    if items != [] {
      PrintReread(items[0]);
      PrintRereadItems(items[1..], false);
      assert RereadItems(items)[1..] == RereadItems(items[1..]);
    }
  }

  lemma {:induction false} PrintRereadMembers(members: seq<Entry<Json>>, first: bool)
    ensures |PrintMembers(RereadMembers(members), first)| + NegativeZerosIn(members) == |PrintMembers(members, first)|
    ensures NegativeZerosIn(members) == 0 ==>
            PrintMembers(RereadMembers(members), first) == PrintMembers(members, first)
    decreases members, 1
  {
    if members != [] {
      PrintReread(members[0].value);
      PrintRereadMembers(members[1..], false);
      assert RereadMembers(members)[1..] == RereadMembers(members[1..]);
    }
  }

  /** The text is the same exactly when no float is a negative zero. */
  lemma {:induction false} PrintRereadExactly(v: Json)
    ensures Print(Reread(v)) == Print(v) <==> NegativeZeros(v) == 0
  {
    PrintReread(v);
  }

  // ----- objects -----

  lemma {:induction false} GetReread(members: seq<Entry<Json>>, key: string)
    ensures Get(RereadMembers(members), key) ==
            if Get(members, key).Some? then Some(Reread(Get(members, key).value)) else None
  {
    if members != [] && members[0].key != key {
      assert RereadMembers(members)[1..] == RereadMembers(members[1..]);
      GetReread(members[1..], key);
    }
  }

  lemma {:induction false} NegativeZerosInsert(members: seq<Entry<Json>>, key: string, v: Json)
    requires Get(members, key).None?
    ensures NegativeZerosIn(Insert(members, key, v)) == NegativeZerosIn(members) + NegativeZeros(v)
  {
    if members != [] && !Less(key, members[0].key) {
      NegativeZerosInsert(members[1..], key, v);
      assert Insert(members, key, v)[1..] == Insert(members[1..], key, v);
    } else {
      assert Insert(members, key, v) == [Entry(key, v)] + members;
      assert Insert(members, key, v)[1..] == members;
    }
  }
}
