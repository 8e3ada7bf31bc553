/**
 Collecting version ids from a JSON response by a walk that pushes into one list.
 An object is its entries in iteration order.
 */
module VersionWalk {
  import opened Common

  datatype Json =
    | Null
    | Bool(b: bool)
    | Int(i: int)
    | Fraction
    | Str(s: string)
    | Arr(items: seq<Json>)
    | Obj(entries: seq<Entry>)

  datatype Entry = Entry(key: string, value: Json)

  const U64_SIZE: int := 0x1_0000_0000_0000_0000

  /** The library's unsigned parse: an optional plus, at least one digit, no overflow. */
  function ParseU64(s: string): Option<nat> {
    var digits := if |s| > 0 && s[0] == '+' then s[1..] else s;
    if |digits| > 0 && AllDigits(digits) && Number(digits) < U64_SIZE then Some(Number(digits)) else None
  }

  /** A number printed in decimal. */
  function Decimal(n: nat): string {
    if n < 10 then [Digit(n)] else Decimal(n / 10) + [Digit(n % 10)]
  }

  lemma {:induction false} DigitsOfDecimal(n: nat)
    ensures AllDigits(Decimal(n)) && Number(Decimal(n)) == n && |Decimal(n)| > 0
  {
    if n < 10 {
      DigitAppended("", n);
      assert "" + [Digit(n)] == Decimal(n);
    } else {
      DigitsOfDecimal(n / 10);
      DigitAppended(Decimal(n / 10), n % 10);
    }
  }

  /** Parsing undoes printing for every 64-bit number, and refuses every larger one. */
  lemma ParsePrinted(n: nat)
    ensures ParseU64(Decimal(n)) == (if n < U64_SIZE then Some(n) else None)
    ensures ParseU64("+" + Decimal(n)) == ParseU64(Decimal(n))
  {
    DigitsOfDecimal(n);
    assert IsDigit(Decimal(n)[0]);
    assert ("+" + Decimal(n))[1..] == Decimal(n);
  }

  predicate IsVersionKey(k: string) {
    k == "version_id" || k == "version"
  }

  /** The version a value stands for under a version key. */
  function VersionOf(v: Json): Option<nat> {
    match v
    case Int(i) => if 0 <= i < U64_SIZE then Some(i) else None
    case Str(s) => ParseU64(s)
    case _ => None
  }

  // ------------------------------------------------------------------------
  // The walk

  method CollectVersions(v: Json, out: seq<nat>) returns (out': seq<nat>)
    ensures out' == out + Versions(v)
    decreases v
  {
    out' := out;
    match v
    case Obj(entries) =>
      for i := 0 to |entries|
        invariant out' == out + OfEntries(entries[..i])
      {
        var Entry(k, val) := entries[i];
        var isVersion := k == "version_id" || k == "version";
        if isVersion && val.Int? && 0 <= val.i < U64_SIZE {
          out' := out' + [val.i];
        } else if isVersion && val.Str? && ParseU64(val.s).Some? {
          out' := out' + [ParseU64(val.s).value];
        } else {
          out' := CollectVersions(val, out');
        }
        assert entries[..i + 1][..i] == entries[..i];
      }
      assert entries[..|entries|] == entries;
    case Arr(items) =>
      for i := 0 to |items|
        invariant out' == out + OfItems(items[..i])
      {
        out' := CollectVersions(items[i], out');
        assert items[..i + 1][..i] == items[..i];
      }
      assert items[..|items|] == items;
    case _ =>
  }

  /** The versions of a tree, with no accumulator. */
  function Versions(v: Json): seq<nat>
    decreases v, 0
  {
    match v
    case Obj(entries) => OfEntries(entries)
    case Arr(items) => OfItems(items)
    case _ => []
  }

  function OfEntries(entries: seq<Entry>): seq<nat>
    decreases entries, 1
  {
    if |entries| == 0 then []
    else
      var last := entries[|entries| - 1];
      OfEntries(entries[..|entries| - 1])
      + (if IsVersionKey(last.key) && VersionOf(last.value).Some? then [VersionOf(last.value).value]
          else Versions(last.value))
  }

  function OfItems(items: seq<Json>): seq<nat>
    decreases items, 1
  {
    if |items| == 0 then [] else OfItems(items[..|items| - 1]) + Versions(items[|items| - 1])
  }

  // ------------------------------------------------------------------------
  // What is collected, by place

  /** Every object entry of the tree at any depth, in traversal order. */
  function Fields(v: Json): seq<Entry>
    decreases v, 0
  {
    match v
    case Obj(entries) => FieldsOfEntries(entries)
    case Arr(items) => FieldsOfItems(items)
    case _ => []
  }

  function FieldsOfEntries(entries: seq<Entry>): seq<Entry>
    decreases entries, 1
  {
    if |entries| == 0 then []
    else
      var last := entries[|entries| - 1];
      FieldsOfEntries(entries[..|entries| - 1]) + [last] + Fields(last.value)
  }

  function FieldsOfItems(items: seq<Json>): seq<Entry>
    decreases items, 1
  {
    if |items| == 0 then [] else FieldsOfItems(items[..|items| - 1]) + Fields(items[|items| - 1])
  }

  /** The version fields among a list of fields. */
  function Select(fields: seq<Entry>): seq<nat> {
    if |fields| == 0 then []
    else
      var Entry(k, v) := fields[|fields| - 1];
      var early := Select(fields[..|fields| - 1]);
      if IsVersionKey(k) && VersionOf(v).Some? then early + [VersionOf(v).value] else early
  }

  lemma {:induction false} SelectParts(a: seq<Entry>, b: seq<Entry>)
    ensures Select(a + b) == Select(a) + Select(b)
  {
    if |b| == 0 {
      assert a + b == a;
    } else {
      SelectParts(a, b[..|b| - 1]);
      assert (a + b)[..|a + b| - 1] == a + b[..|b| - 1];
    }
  }

  /**
   The walk collects exactly the version fields among all fields of the tree, at
   every depth and in traversal order; a container under a version key
   contributes the fields inside it.
   */
  lemma {:induction false} WalkSelectsFields(v: Json)
    ensures Versions(v) == Select(Fields(v))
    decreases v, 0
  {
    match v
    case Obj(entries) => EntriesSelected(entries);
    case Arr(items) => ItemsSelected(items);
    case _ =>
  }

  lemma {:induction false} EntriesSelected(entries: seq<Entry>)
    ensures OfEntries(entries) == Select(FieldsOfEntries(entries))
    decreases entries, 1
  {
    if |entries| > 0 {
      var early, last := entries[..|entries| - 1], entries[|entries| - 1];
      EntriesSelected(early);
      WalkSelectsFields(last.value);
      SelectParts(FieldsOfEntries(early) + [last], Fields(last.value));
      SelectParts(FieldsOfEntries(early), [last]);
      assert VersionOf(last.value).Some? ==> Fields(last.value) == [];
    }
  }

  lemma {:induction false} ItemsSelected(items: seq<Json>)
    ensures OfItems(items) == Select(FieldsOfItems(items))
    decreases items, 1
  {
    if |items| > 0 {
      ItemsSelected(items[..|items| - 1]);
      WalkSelectsFields(items[|items| - 1]);
      SelectParts(FieldsOfItems(items[..|items| - 1]), Fields(items[|items| - 1]));
    }
  }
}
