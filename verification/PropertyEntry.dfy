/** One property entry: source slots, a generation counter and a cached materialized value.

`EntryRecord` is the persistent form an entry has inside a battle state.  `PropertyEntry` is the
mutable object the runtime loads from it, changes in place and stores back.  Each method of the
class is proved against a function on records.
 */
module PropertyEntries {
  import opened Wrappers
  import opened FixPoint

  datatype PropertyError =
    | EntryNotFound
    | SourceIndexOutOfRange
    | UnsupportedKind(kind: int)
    | UnsupportedPostStage
    | UnsupportedSpecialProperty

  /** Which of the three opaque post-materialization stages are non-null. */
  datatype PostStages = PostStages(hookContext: bool, transformA: bool, transformB: bool) {
    predicate AllNull() {
      !hookContext && !transformA && !transformB
    }
  }

  datatype RawEntryRecord = EntryRecord(
    generation: seq<nat>,
    active: seq<bool>,
    value: seq<Raw>,
    post: PostStages,
    kind: int,
    counter: nat,
    extent: nat,
    lastChanged: nat,
    base: Raw,
    materialized: Raw)

  /** Parallel arrays of equal length, as the constructor of an entry demands. */
  type EntryRecord = r: RawEntryRecord | |r.generation| == |r.active| == |r.value|
    witness EntryRecord([], [], [], PostStages(false, false, false), 1, 0, 0, 0, 0, 0)

  /** A fresh entry: slot 0 reserved and inactive, the cache primed with the base. */
  function CreateEmpty(kind: int, base: Raw): EntryRecord {
    EntryRecord([0], [false], [0], PostStages(false, false, false), kind, 0, 0, 0, base, base)
  }

  // -------------------------------------------------------------------------
  // Materialization
  // -------------------------------------------------------------------------

  function SlotValues(active: bool, v: Raw): seq<Raw> {
    if active then [v] else []
  }

  /** The values of the active slots below `n`, in slot order. */
  function ActivePrefix(active: seq<bool>, value: seq<Raw>, n: nat): seq<Raw>
    requires n <= |active| == |value|
  {
    if n == 0 then [] else ActivePrefix(active, value, n - 1) + SlotValues(active[n - 1], value[n - 1])
  }

  function ActiveValues(active: seq<bool>, value: seq<Raw>): seq<Raw>
    requires |active| == |value|
  {
    ActivePrefix(active, value, |active|)
  }

  function FoldAdd(base: Raw, s: seq<Raw>): Raw {
    if s == [] then base else Add(FoldAdd(base, s[..|s| - 1]), s[|s| - 1])
  }

  function FoldMultiply(base: Raw, s: seq<Raw>): Raw {
    if s == [] then base else Multiply(FoldMultiply(base, s[..|s| - 1]), s[|s| - 1])
  }

  /** Position `k` holds a least value, and everything before it is greater. */
  ghost predicate FirstLeastAt(s: seq<Raw>, k: int) {
    && 0 <= k < |s| && (forall j :: 0 <= j < |s| ==> Denote(s[k]) <= Denote(s[j]))
    && (forall j :: 0 <= j < k ==> Denote(s[k]) < Denote(s[j]))
  }

  ghost predicate FirstGreatestAt(s: seq<Raw>, k: int) {
    && 0 <= k < |s| && (forall j :: 0 <= j < |s| ==> Denote(s[j]) <= Denote(s[k]))
    && (forall j :: 0 <= j < k ==> Denote(s[j]) < Denote(s[k]))
  }

  /** The first least value, wherever it stands. */
  ghost predicate IsFirstLeast(s: seq<Raw>, m: Raw) {
    exists k :: FirstLeastAt(s, k) && m == s[k]
  }

  lemma FirstLeastExtends(s: seq<Raw>, t: seq<Raw>, candidate: Raw, m: Raw)
    requires s == t + [candidate] && IsFirstLeast(t, m)
    ensures IsFirstLeast(s, if Less(candidate, m) then candidate else m)
  {
    hide Denote, Compare;
    var k :| FirstLeastAt(t, k) && m == t[k];
    assert FirstLeastAt(s, if Less(candidate, m) then |t| else k);
  }

  lemma FirstLeastOfOne(s: seq<Raw>)
    requires |s| == 1
    ensures IsFirstLeast(s, s[0])
  {
    assert FirstLeastAt(s, 0);
  }

  /** The first greatest value, wherever it stands. */
  ghost predicate IsFirstGreatest(s: seq<Raw>, m: Raw) {
    exists k :: FirstGreatestAt(s, k) && m == s[k]
  }

  lemma FirstGreatestExtends(s: seq<Raw>, t: seq<Raw>, candidate: Raw, m: Raw)
    requires s == t + [candidate] && IsFirstGreatest(t, m)
    ensures IsFirstGreatest(s, if Greater(candidate, m) then candidate else m)
  {
    hide Denote, Compare;
    var k :| FirstGreatestAt(t, k) && m == t[k];
    assert FirstGreatestAt(s, if Greater(candidate, m) then |t| else k);
  }

  lemma FirstGreatestOfOne(s: seq<Raw>)
    requires |s| == 1
    ensures IsFirstGreatest(s, s[0])
  {
    assert FirstGreatestAt(s, 0);
  }

  lemma FirstLeastFacts(s: seq<Raw>, m: Raw)
    requires IsFirstLeast(s, m)
    ensures m in s && forall v :: v in s ==> Denote(m) <= Denote(v)
  {
    hide Denote;
  }

  /** The first least value. */
  function FirstMin(s: seq<Raw>): (m: Raw)
    requires s != []
    ensures IsFirstLeast(s, m)
  {
    if |s| == 1 then
      FirstLeastOfOne(s);
      s[0]
    else
      var m, candidate := FirstMin(s[..|s| - 1]), s[|s| - 1];
      FirstLeastExtends(s, s[..|s| - 1], candidate, m);
      if Less(candidate, m) then candidate else m
  }

  lemma FirstMinStep(s: seq<Raw>, j: nat)
    requires 0 < j < |s|
    ensures FirstMin(s[..j + 1]) == if Less(s[j], FirstMin(s[..j])) then s[j] else FirstMin(s[..j])
  {
    hide IsFirstLeast, Less;
    assert s[..j + 1][..j] == s[..j];
  }

  lemma FirstGreatestFacts(s: seq<Raw>, m: Raw)
    requires IsFirstGreatest(s, m)
    ensures m in s && forall v :: v in s ==> Denote(v) <= Denote(m)
  {
    hide Denote;
  }

  /** The first greatest value. */
  function FirstMax(s: seq<Raw>): (m: Raw)
    requires s != []
    ensures IsFirstGreatest(s, m)
  {
    if |s| == 1 then
      FirstGreatestOfOne(s);
      s[0]
    else
      var m, candidate := FirstMax(s[..|s| - 1]), s[|s| - 1];
      FirstGreatestExtends(s, s[..|s| - 1], candidate, m);
      if Greater(candidate, m) then candidate else m
  }

  lemma ExtremaOfOne(s: seq<Raw>)
    requires s != []
    ensures FirstMin(s[..1]) == FirstMax(s[..1]) == s[0]
  {
  }

  lemma FirstMaxStep(s: seq<Raw>, j: nat)
    requires 0 < j < |s|
    ensures FirstMax(s[..j + 1]) == if Greater(s[j], FirstMax(s[..j])) then s[j] else FirstMax(s[..j])
  {
    hide IsFirstGreatest, Greater;
    assert s[..j + 1][..j] == s[..j];
  }

  /** What the seven materialization kinds select or fold; `None` for the unsupported ones. */
  function Materialize(r: EntryRecord): Option<Raw> {
    var s := ActiveValues(r.active, r.value);
    match r.kind
    case 1 => Some(if r.value == [] then r.base else r.value[0])
    case 2 => Some(if r.lastChanged < |r.value| then r.value[r.lastChanged] else r.base)
    case 3 => Some(FoldAdd(r.base, s))
    case 4 => Some(FoldMultiply(r.base, s))
    case 6 => Some(if s == [] then r.base else FirstMin(s))
    case 7 => Some(if s == [] then r.base else FirstMax(s))
    case _ => None
  }

  /** The entry with its cache brought up to date. */
  function Rebuild(r: EntryRecord): Result<EntryRecord, PropertyError> {
    if !r.post.AllNull() then Err(UnsupportedPostStage)
    else
      match Materialize(r)
      case None => Err(UnsupportedKind(r.kind))
      case Some(m) => Ok(r.(materialized := m))
  }

  // -------------------------------------------------------------------------
  // Slot operations on records
  // -------------------------------------------------------------------------

  function CountActive(active: seq<bool>): (n: nat)
    ensures n <= |active|
  {
    if active == [] then 0
    else CountActive(active[..|active| - 1]) + if active[|active| - 1] then 1 else 0
  }

  function ReserveSourceZero(r: EntryRecord): EntryRecord {
    if r.value == [] then r.(generation := [0], active := [false], value := [0]) else r
  }

  /** The first inactive slot from `from` upward, or the length when there is none. */
  function FirstFree(active: seq<bool>, from: nat): (i: nat)
    requires from <= |active|
    ensures from <= i <= |active|
    ensures i < |active| ==> !active[i]
    ensures forall j :: from <= j < i ==> active[j]
    decreases |active| - from
  {
    if from == |active| || !active[from] then from else FirstFree(active, from + 1)
  }

  function Grow(r: EntryRecord): EntryRecord {
    r.(generation := r.generation + [0], active := r.active + [false], value := r.value + [0])
  }

  /** Slot `i` written, activated and stamped with the next generation; cache not yet rebuilt. */
  function WriteSlot(r: EntryRecord, i: nat, v: Raw): EntryRecord
    requires i < |r.value|
  {
    var active := r.active[i := true];
    r.(value := r.value[i := v], active := active, counter := r.counter + 1,
       generation := r.generation[i := r.counter + 1], lastChanged := i, extent := CountActive(active))
  }

  function DisableSlot(r: EntryRecord, i: nat): EntryRecord
    requires i < |r.value|
  {
    var active := r.active[i := false];
    r.(active := active, generation := r.generation[i := 0], extent := CountActive(active))
  }

  /** The slot an allocation takes, and the entry with room for it. */
  function ChosenSlot(r: EntryRecord): (i: nat)
    ensures 1 <= i <= |ReserveSourceZero(r).value|
  {
    var z := ReserveSourceZero(r);
    FirstFree(z.active, 1)
  }

  function WithRoom(r: EntryRecord): (w: EntryRecord)
    ensures ChosenSlot(r) < |w.value|
  {
    var z := ReserveSourceZero(r);
    if ChosenSlot(r) == |z.value| then Grow(z) else z
  }

  function Allocate(r: EntryRecord, v: Raw): Result<EntryRecord, PropertyError> {
    Rebuild(WriteSlot(WithRoom(r), ChosenSlot(r), v))
  }

  function Update(r: EntryRecord, i: int, v: Raw): Result<EntryRecord, PropertyError> {
    if 0 <= i < |r.value| then Rebuild(WriteSlot(r, i, v)) else Err(SourceIndexOutOfRange)
  }

  /** Removing from an entry with no active source changes nothing, whatever the index. */
  function Remove(r: EntryRecord, i: int): Result<EntryRecord, PropertyError> {
    if !(0 <= i < |r.value|) then Err(SourceIndexOutOfRange)
    else if r.extent == 0 then Ok(r)
    else Rebuild(DisableSlot(r, i))
  }

  /** The five modify functions; an id outside the table falls through to Set. */
  function ApplyModifyFunction(functionId: int, current: Raw, operand: Raw): Raw {
    match functionId
    case 1 => operand
    case 2 => Add(current, operand)
    case 3 => Multiply(current, operand)
    case 4 => if Less(current, operand) then current else operand
    case 5 => if Greater(operand, current) then operand else current
    case _ => operand
  }

  const SET: int := 1

  // -------------------------------------------------------------------------
  // The mutable entry
  // -------------------------------------------------------------------------

  /** The values found at a list of indices. */
  ghost function Gather(value: seq<Raw>, indices: seq<nat>): (s: seq<Raw>)
    requires forall i :: i in indices ==> i < |value|
    ensures |s| == |indices|
  {
    seq(|indices|, j requires 0 <= j < |indices| => assert indices[j] in indices; value[indices[j]])
  }

  lemma GatherSnoc(value: seq<Raw>, indices: seq<nat>, i: nat)
    requires forall j :: j in indices ==> j < |value|
    requires i < |value|
    ensures Gather(value, indices + [i]) == Gather(value, indices) + [value[i]]
  {
  }

  /** The entry object.  A slot operation that fails while rebuilding leaves the slot written and
      the cache old; its caller then drops the object without storing it. */
  class PropertyEntry {
    var generation: seq<nat>
    var active: seq<bool>
    var value: seq<Raw>
    const post: PostStages
    const kind: int
    var counter: nat
    var extent: nat
    var lastChanged: nat
    const base: Raw
    var materialized: Raw

    ghost predicate Valid()
      reads this
    {
      |generation| == |active| == |value|
    }

    function Record(): EntryRecord
      requires Valid()
      reads this
    {
      EntryRecord(generation, active, value, post, kind, counter, extent, lastChanged, base, materialized)
    }

    constructor FromRecord(r: EntryRecord)
      ensures Valid() && Record() == r
    {
      generation, active, value := r.generation, r.active, r.value;
      post, kind, base := r.post, r.kind, r.base;
      counter, extent, lastChanged := r.counter, r.extent, r.lastChanged;
      materialized := r.materialized;
    }

    method ActiveIndices() returns (indices: seq<nat>)
      requires Valid()
      ensures forall i :: i in indices ==> i < |value|
      ensures Gather(value, indices) == ActiveValues(active, value)
    {
      indices := [];
      for i := 0 to |active|
        invariant forall j :: j in indices ==> j < |value|
        invariant Gather(value, indices) == ActivePrefix(active, value, i)
      {
        if active[i] {
          GatherSnoc(value, indices, i);
          indices := indices + [i];
        }
      }
    }

    method FoldActive(multiply: bool) returns (accumulator: Raw)
      requires Valid()
      ensures accumulator == if multiply then FoldMultiply(base, ActiveValues(active, value))
                                         else FoldAdd(base, ActiveValues(active, value))
    {
      hide Decode, Encode, ActivePrefix;
      var indices := ActiveIndices();
      ghost var s := ActiveValues(active, value);
      accumulator := base;
      for j := 0 to |indices|
        invariant accumulator == if multiply then FoldMultiply(base, s[..j]) else FoldAdd(base, s[..j])
      {
        assert indices[j] in indices;
        assert s[..j + 1][..j] == s[..j] && s[j] == Gather(value, indices)[j];
        accumulator := if multiply then Multiply(accumulator, value[indices[j]])
                                   else Add(accumulator, value[indices[j]]);
      }
      assert s[..|indices|] == s;
    }

    method SelectActive(greatest: bool) returns (selected: Raw)
      requires Valid()
      ensures var s := ActiveValues(active, value);
        selected == if s == [] then base else if greatest then FirstMax(s) else FirstMin(s)
    {
      hide Less, Greater, ActivePrefix, FirstMin, FirstMax, IsFirstLeast, IsFirstGreatest;
      var indices := ActiveIndices();
      ghost var s := Gather(value, indices);
      if indices == [] {
        return base;
      }
      assert indices[0] in indices;
      selected := value[indices[0]];
      ExtremaOfOne(s);
      for j := 1 to |indices|
        invariant selected == if greatest then FirstMax(s[..j]) else FirstMin(s[..j])
      {
        assert indices[j] in indices;
        FirstMinStep(s, j);
        FirstMaxStep(s, j);
        var candidate := value[indices[j]];
        if greatest && Greater(candidate, selected) {
          selected := candidate;
        } else if !greatest && Less(candidate, selected) {
          selected := candidate;
        }
      }
      assert s[..|indices|] == s;
    }

    method MaterializeByKind() returns (m: Option<Raw>)
      requires Valid()
      ensures m == Materialize(Record())
    {
      if kind == 1 {
        m := Some(if |value| == 0 then base else value[0]);
      } else if kind == 2 {
        m := Some(if lastChanged < |value| then value[lastChanged] else base);
      } else if kind == 3 || kind == 4 {
        var folded := FoldActive(kind == 4);
        m := Some(folded);
      } else if kind == 6 || kind == 7 {
        var selected := SelectActive(kind == 7);
        m := Some(selected);
      } else {
        m := None;
      }
    }

    method RebuildMaterialized() returns (failure: Option<PropertyError>)
      requires Valid()
      modifies this`materialized
      ensures match Rebuild(old(Record()))
        case Ok(r) => failure == None && Record() == r
        case Err(e) => failure == Some(e) && Record() == old(Record())
    {
      if !post.AllNull() {
        return Some(UnsupportedPostStage);
      }
      var candidate := MaterializeByKind();
      if candidate == None {
        return Some(UnsupportedKind(kind));
      }
      materialized := candidate.value;
      failure := None;
    }

    /** Write, activate and stamp one slot, then rebuild. */
    method StampSlot(i: nat, v: Raw) returns (failure: Option<PropertyError>)
      requires Valid() && i < |value|
      modifies this
      ensures Valid()
      ensures match Rebuild(WriteSlot(old(Record()), i, v))
        case Ok(r) => failure == None && Record() == r
        case Err(e) => failure == Some(e) && Record() == WriteSlot(old(Record()), i, v)
    {
      value := value[i := v];
      active := active[i := true];
      counter := counter + 1;
      generation := generation[i := counter];
      lastChanged := i;
      extent := CountActive(active);
      failure := RebuildMaterialized();
    }

    method AllocateSourceSlot(v: Raw) returns (r: Result<nat, PropertyError>)
      requires Valid()
      modifies this
      ensures Valid()
      ensures match Allocate(old(Record()), v)
        case Ok(rec) => r == Ok(ChosenSlot(old(Record()))) && Record() == rec
        case Err(e) => (
          && r == Err(e)
          && Record() == WriteSlot(WithRoom(old(Record())), ChosenSlot(old(Record())), v))
    {
      if |value| == 0 {
        generation, active, value := [0], [false], [0];
      }
      ghost var z := Record();
      var index := 1;
      while index < |value| && active[index]
        invariant 1 <= index <= |value|
        invariant FirstFree(active, 1) == FirstFree(active, index)
      {
        index := index + 1;
      }
      if index == |value| {
        generation, active, value := generation + [0], active + [false], value + [0];
      }
      assert Record() == WithRoom(old(Record()));
      var failure := StampSlot(index, v);
      r := if failure == None then Ok(index) else Err(failure.value);
    }

    method UpdateSourceSlot(i: int, v: Raw) returns (failure: Option<PropertyError>)
      requires Valid()
      modifies this
      ensures Valid()
      ensures match Update(old(Record()), i, v)
        case Ok(r) => failure == None && Record() == r
        case Err(e) => (
          && failure == Some(e)
          && Record() == if 0 <= i < |old(value)| then WriteSlot(old(Record()), i, v) else old(Record()))
    {
      if !(0 <= i < |value|) {
        return Some(SourceIndexOutOfRange);
      }
      failure := StampSlot(i, v);
    }

    method RemoveSourceSlot(i: int) returns (failure: Option<PropertyError>)
      requires Valid()
      modifies this
      ensures Valid()
      ensures match Remove(old(Record()), i)
        case Ok(r) => failure == None && Record() == r
        case Err(e) => (
          && failure == Some(e)
          && Record() == if 0 <= i < |old(value)| then DisableSlot(old(Record()), i) else old(Record()))
    {
      if !(0 <= i < |value|) {
        return Some(SourceIndexOutOfRange);
      }
      if extent == 0 {
        return None;
      }
      active := active[i := false];
      generation := generation[i := 0];
      extent := CountActive(active);
      failure := RebuildMaterialized();
    }
  }
}
