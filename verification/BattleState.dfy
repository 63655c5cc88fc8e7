/** The persistent battle state and the values it holds.

String keys of the JSON state are replaced by the tuples they spell, and each mapping of the
state is a map field that the runtime reassigns.
 */
module BattleStates {
  import opened Wrappers
  import opened FixPoint
  import opened PropertyEntries

  type EntityId = int

  datatype EntryKey = EntryKey(entity: EntityId, property: int)

  datatype ModifierRef = ModifierRef(name: string, owner: EntityId, ordinal: nat)

  /** One modifier-owned source slot. */
  datatype Contribution = Contribution(modifier: ModifierRef, key: EntryKey, slot: nat)

  datatype BoundaryOperation = SourceAllocated | SourceUpdated | SourceRemoved | AfterPropertyChanged

  datatype Boundary = Boundary(operation: BoundaryOperation, key: EntryKey, slot: nat, before: Raw, after: Raw)

  datatype ModifierState = ModifierState(
    name: string,
    owner: EntityId,
    ordinal: nat,
    stateRaw: int,
    stackingFlag: int,
    count: nat,
    layer: int,
    maxLayer: int,
    currentLife: int,
    source: Option<EntityId>,
    caster: Option<EntityId>,
    previousLife: int,
    isMaxLayer: bool,
    destroyGuard: nat,
    sourceProvider: Option<int>)
  {
    function Ref(): ModifierRef {
      ModifierRef(name, owner, ordinal)
    }
  }

  const TO_BE_ADDED: int := 0
  const ALIVE: int := 1
  const TO_BE_REMOVED: int := 2

  datatype TurnPhase = Ready | Active | Settled

  datatype Timeline = Timeline(
    ids: seq<EntityId>,
    actor: Option<EntityId>,
    elapsed: Raw,
    turnIndex: nat,
    phase: TurnPhase,
    provenance: Option<string>)

  datatype LockHpRecord = LockHpRecord(actionRef: string, kind: int, value: Raw)

  class BattleState {
    var entries: map<EntryKey, EntryRecord>
    var contributions: map<ModifierRef, seq<Contribution>>
    var timeline: Option<Timeline>
    var lockRecords: map<EntityId, seq<LockHpRecord>>
    var modifiers: map<EntityId, seq<ModifierState>>
  }

  /** A boundary sink that keeps every record it is given, in order. */
  class BoundaryLog {
    var items: seq<Boundary>
  }
}
