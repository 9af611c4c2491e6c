/**
 The integer operator classes of contrib/btree_gin: a query is turned into an entry to start from
 and a verdict on each key from there on, and no result is rechecked.
 */
module GinScan {
  import opened Optional

  datatype IntType = Int2 | Int4 | Int8 {
    function Least(): int {
      match this
      case Int2 => -0x8000
      case Int4 => -0x8000_0000
      case Int8 => -0x8000_0000_0000_0000
    }

    function Greatest(): int {
      match this
      case Int2 => 0x7fff
      case Int4 => 0x7fff_ffff
      case Int8 => 0x7fff_ffff_ffff_ffff
    }

    predicate Has(v: int) {
      Least() <= v <= Greatest()
    }
  }

  /** The btree strategies 1 to 5. */
  datatype Op = Lt | Le | Eq | Ge | Gt

  /** key op datum */
  predicate Holds(op: Op, key: int, datum: int) {
    match op
    case Lt => key < datum
    case Le => key <= datum
    case Eq => key == datum
    case Ge => key >= datum
    case Gt => key > datum
  }

  /** The low 4 bits of a strategy number. */
  function OpOf(strategy: nat): Option<Op> {
    match strategy % 16
    case 1 => Some(Lt)
    case 2 => Some(Le)
    case 3 => Some(Eq)
    case 4 => Some(Ge)
    case 5 => Some(Gt)
    case _ => None
  }

  /** The upper bits of a strategy number choose the type of the right-hand side. */
  function RhsType(indexed: IntType, strategy: nat): Option<IntType> {
    match (indexed, strategy / 16)
    case (_, 0) => Some(indexed)
    case (Int2, 1) => Some(Int4)
    case (_, 1) => Some(Int2)
    case (Int8, 2) => Some(Int4)
    case (_, 2) => Some(Int8)
    case _ => None
  }

  /** The cvt functions: clamp to the indexed type (a plain widening if nothing needs clamping). */
  function Convert(indexed: IntType, datum: int): int {
    if datum < indexed.Least() then indexed.Least()
    else if datum > indexed.Greatest() then indexed.Greatest()
    else datum
  }

  /** What gin_btree_extract_query hands to the scan. */
  datatype Query = Query(entry: int, partial: bool, op: Op, datum: int)

  /** gin_btree_extract_query; None is the error for an unknown strategy. */
  function ExtractQuery(indexed: IntType, strategy: nat, datum: int): Option<Query> {
    if OpOf(strategy).None? then None
    else
      var op := OpOf(strategy).value;
      if op.Lt? || op.Le? then Some(Query(indexed.Least(), true, op, datum))
      else if strategy / 16 != 0 then Some(Query(Convert(indexed, datum), true, op, datum))
      else Some(Query(datum, !op.Eq?, op, datum))
  }

  datatype Verdict = Match | Skip | Stop

  /** gin_btree_compare_prefix */
  function ComparePrefix(op: Op, datum: int, key: int): Verdict {
    match op
    case Lt => if datum > key then Match else Stop
    case Le => if datum >= key then Match else Stop
    case Eq => if datum == key then Match else Stop
    case Ge => if datum <= key then Match else Skip
    case Gt => if datum < key then Match else Skip
  }

  // -------------------------------------------------------------------------------- scans

  /** The keys of an index, in order. */
  ghost predicate Keys(indexed: IntType, keys: seq<int>) {
    (forall i :: 0 <= i < |keys| ==> indexed.Has(keys[i])) && forall i, j :: 0 <= i < j < |keys| ==> keys[i] < keys[j]
  }

  /** The keys from the first one on that is not below the entry. */
  function From(keys: seq<int>, entry: int): seq<int> {
    if keys == [] || keys[0] >= entry then keys else From(keys[1..], entry)
  }

  /** A partial match scan obeys the verdicts. */
  function Walk(op: Op, datum: int, keys: seq<int>): seq<int> {
    if keys == [] then []
    else match ComparePrefix(op, datum, keys[0])
      case Match => [keys[0]] + Walk(op, datum, keys[1..])
      case Skip => Walk(op, datum, keys[1..])
      case Stop => []
  }

  function Scan(q: Query, keys: seq<int>): seq<int> {
    if q.partial then Walk(q.op, q.datum, From(keys, q.entry))
    else if q.entry in keys then [q.entry] else []
  }

  /** The reference: go over all keys and keep those that satisfy the operator. */
  function Select(op: Op, datum: int, keys: seq<int>): seq<int> {
    if keys == [] then []
    else if Holds(op, keys[0], datum) then [keys[0]] + Select(op, datum, keys[1..])
    else Select(op, datum, keys[1..])
  }

  // ---------------------------------------------------------------------- entries to start at

  /** No key of the type that satisfies the operator is below the entry, or ends the scan too soon. */
  predicate SafeEntry(indexed: IntType, op: Op, datum: int, entry: int) {
    match op
    case Lt => entry <= indexed.Least() || datum <= indexed.Least()
    case Le => entry <= indexed.Least() || datum < indexed.Least()
    case Eq => !indexed.Has(datum) || entry == datum || (entry <= datum && datum == indexed.Least())
    case Ge => entry <= datum || entry <= indexed.Least() || indexed.Greatest() < datum
    case Gt => entry <= datum + 1 || entry <= indexed.Least() || indexed.Greatest() <= datum
  }

  ghost predicate ExactFrom(indexed: IntType, op: Op, datum: int, entry: int) {
    forall keys :: Keys(indexed, keys) ==> Walk(op, datum, From(keys, entry)) == Select(op, datum, keys)
  }

  lemma {:induction false} SelectNone(op: Op, datum: int, keys: seq<int>)
    requires forall i :: 0 <= i < |keys| ==> !Holds(op, keys[i], datum)
    ensures Select(op, datum, keys) == []
  {
    if keys != [] { SelectNone(op, datum, keys[1..]); }
  }

  /** On ordered keys the verdicts pick what the filter picks; for equality, from the datum on. */
  lemma {:induction false} WalkIsSelect(op: Op, datum: int, keys: seq<int>)
    requires forall i, j :: 0 <= i < j < |keys| ==> keys[i] < keys[j]
    requires op.Eq? && keys != [] ==> keys[0] >= datum || datum !in keys
    ensures Walk(op, datum, keys) == Select(op, datum, keys)
  {
    if keys != [] {
      var rest := keys[1..];
      forall i, j | 0 <= i < j < |rest| ensures rest[i] < rest[j] { assert keys[i + 1] < keys[j + 1]; }
      forall i | 0 <= i < |rest| ensures keys[0] < rest[i] { assert rest[i] == keys[i + 1]; }
      if ComparePrefix(op, datum, keys[0]).Stop? {
        forall i | 0 <= i < |keys| ensures !Holds(op, keys[i], datum) {
          assert keys[0] <= keys[i] && keys[i] in keys;
        }
        SelectNone(op, datum, keys);
      } else {
        WalkIsSelect(op, datum, rest);
      }
    }
  }

  /** Keys below the entry may be left out when none of them satisfies the operator. */
  lemma {:induction false} SelectFrom(op: Op, datum: int, keys: seq<int>, entry: int)
    requires forall i :: 0 <= i < |keys| && keys[i] < entry ==> !Holds(op, keys[i], datum)
    ensures Select(op, datum, From(keys, entry)) == Select(op, datum, keys)
  {
    if keys != [] && keys[0] < entry { SelectFrom(op, datum, keys[1..], entry); }
  }

  /** What is left of ordered keys is ordered, and starts at the entry or above. */
  lemma {:induction false} FromOrdered(indexed: IntType, keys: seq<int>, entry: int)
    requires Keys(indexed, keys)
    ensures Keys(indexed, From(keys, entry))
    ensures From(keys, entry) != [] ==> From(keys, entry)[0] >= entry
    ensures forall k :: k in From(keys, entry) ==> k in keys
  {
    if keys != [] && keys[0] < entry {
      var rest := keys[1..];
      forall i, j | 0 <= i < j < |rest| ensures rest[i] < rest[j] { assert keys[i + 1] < keys[j + 1]; }
      FromOrdered(indexed, rest, entry);
    }
  }

  lemma SafeEntryExact(indexed: IntType, op: Op, datum: int, entry: int, keys: seq<int>)
    requires SafeEntry(indexed, op, datum, entry) && Keys(indexed, keys)
    ensures Walk(op, datum, From(keys, entry)) == Select(op, datum, keys)
  {
    forall i | 0 <= i < |keys| && keys[i] < entry ensures !Holds(op, keys[i], datum) { assert indexed.Has(keys[i]); }
    SelectFrom(op, datum, keys, entry);
    FromOrdered(indexed, keys, entry);
    var from := From(keys, entry);
    if from != [] && datum in from { assert indexed.Has(datum) && indexed.Has(from[0]); }
    WalkIsSelect(op, datum, from);
  }

  /** A scan from the entry is exact on every index of the type if and only if the entry is safe. */
  lemma ExactIffSafeEntry(indexed: IntType, op: Op, datum: int, entry: int)
    ensures ExactFrom(indexed, op, datum, entry) <==> SafeEntry(indexed, op, datum, entry)
  {
    if SafeEntry(indexed, op, datum, entry) {
      forall keys | Keys(indexed, keys) ensures Walk(op, datum, From(keys, entry)) == Select(op, datum, keys) {
        SafeEntryExact(indexed, op, datum, entry, keys);
      }
    } else if op.Eq? && entry < datum {
      var k := if entry < indexed.Least() then indexed.Least() else entry;
      StopsTooSoon(indexed, datum, entry, k);
    } else {
      var k := match op
        case Lt => indexed.Least()
        case Le => indexed.Least()
        case Eq => datum
        case Ge => if datum < indexed.Least() then indexed.Least() else datum
        case Gt => if datum < indexed.Least() then indexed.Least() else datum + 1;
      LosesKey(indexed, op, datum, entry, k);
    }
  }

  lemma LosesKey(indexed: IntType, op: Op, datum: int, entry: int, k: int)
    requires indexed.Has(k) && k < entry && Holds(op, k, datum)
    ensures !ExactFrom(indexed, op, datum, entry)
  {
    var keys := [k];
    assert keys[1..] == [] && Keys(indexed, keys);
    assert From(keys, entry) == From(keys[1..], entry) == [];
    assert Select(op, datum, keys) == [k] + Select(op, datum, keys[1..]);
  }

  lemma StopsTooSoon(indexed: IntType, datum: int, entry: int, k: int)
    requires indexed.Has(k) && indexed.Has(datum) && entry <= k < datum
    ensures !ExactFrom(indexed, Eq, datum, entry)
  {
    var keys := [k, datum];
    assert Keys(indexed, keys) && From(keys, entry) == keys && Walk(Eq, datum, keys) == [];
    SelectEqual(datum, keys);
  }

  lemma {:induction false} SelectEqual(datum: int, keys: seq<int>)
    requires forall i, j :: 0 <= i < j < |keys| ==> keys[i] < keys[j]
    ensures Select(Eq, datum, keys) == if datum in keys then [datum] else []
  {
    if keys != [] {
      var rest := keys[1..];
      forall i, j | 0 <= i < j < |rest| ensures rest[i] < rest[j] { assert keys[i + 1] < keys[j + 1]; }
      forall i | 0 <= i < |rest| ensures rest[i] != keys[0] { assert rest[i] == keys[i + 1]; }
      SelectEqual(datum, rest);
    }
  }

  /**
   For every known strategy, with a right-hand side of the same or of another integer type, the
   scan yields exactly the keys that satisfy the operator, in order; unknown ones are refused.
   */
  lemma {:induction false} ScanIsFilter(indexed: IntType, strategy: nat, datum: int, keys: seq<int>)
    requires Keys(indexed, keys)
    requires RhsType(indexed, strategy).Some? && RhsType(indexed, strategy).value.Has(datum)
    ensures ExtractQuery(indexed, strategy, datum).Some? <==> OpOf(strategy).Some?
    ensures OpOf(strategy).Some? ==>
      Scan(ExtractQuery(indexed, strategy, datum).value, keys) == Select(OpOf(strategy).value, datum, keys)
  {
    if OpOf(strategy).Some? {
      var q := ExtractQuery(indexed, strategy, datum).value;
      if q.partial {
        SafeEntryExact(indexed, q.op, datum, q.entry, keys);
      } else {
        SelectEqual(datum, keys);
      }
    }
  }
}
