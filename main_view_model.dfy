/**
 * The shared controller behind both photo pages: delete mode, the ordered
 * selection of (photo, storage) pairs, the permission grants, and the storage
 * events it emits. The selection operations are first given as pure transitions
 * on a `SelectionState`; the class `MainViewModel` performs them in place and is
 * proved to follow them.
 */
module ViewModel {
  import opened Wrappers
  import opened Lists
  import opened StorageTypes
  import opened PhotoAdapter

  /** What the storage event channel carries. */
  datatype StorageEvent =
    | InternalStorageUpdated
    | DeleteInternalStoragePhoto(photo: Photo)
    | ScopeStorageUpdated
    | DeleteScopedStoragePhoto(photo: Photo)

  /** The combined permission flag: a request is due unless both write and read are granted. */
  function ShouldRequestPermission(write: bool, read: bool): (r: bool)
    ensures r <==> !write || !read
  {
    !(write && read)
  }

  // ---------------------------------------------------------------- selection state

  /** The two observable pieces of selection state. */
  datatype SelectionState = SelectionState(deleteMode: bool, selected: seq<Entry>)

  /** Delete mode off, nothing selected: the state the view model starts in. */
  const Initial: SelectionState := SelectionState(false, [])

  /** No photo is selected twice, whatever storages its entries name. */
  predicate UniquePhotos(selected: seq<Entry>) {
    forall i, j :: 0 <= i < j < |selected| ==> selected[i].0 != selected[j].0
  }

  /** The invariant the selection operations keep: unique photos, and nothing selected outside delete mode. */
  predicate Invariant(s: SelectionState) {
    UniquePhotos(s.selected) && (!s.deleteMode ==> s.selected == [])
  }

  /** `indexOfFirst { it.first == photo }`: the position of the first entry holding the photo, or -1. */
  function IndexOfFirst(selected: seq<Entry>, photo: Photo): (r: int)
    ensures -1 <= r < |selected|
    ensures r == -1 <==> !IsSelected(selected, photo)
    ensures r != -1 ==> selected[r].0 == photo && forall i :: 0 <= i < r ==> selected[i].0 != photo
  {
    if selected == [] then -1
    else if selected[0].0 == photo then 0
    else
      var k := IndexOfFirst(selected[1..], photo);
      assert forall i :: 1 <= i < |selected| ==> selected[i] == selected[1..][i - 1];
      if k == -1 then -1 else k + 1
  }

  /** `activateDeleteModeOrIgnore`: delete mode on, selection untouched. */
  function ActivateOrIgnore(s: SelectionState): (r: SelectionState)
    ensures r.deleteMode && r.selected == s.selected
  {
    if !s.deleteMode then s.(deleteMode := true) else s
  }

  /** `deactivateDeleteMode`: delete mode off and the selection cleared, from any state. */
  function Deactivate(s: SelectionState): (r: SelectionState)
    ensures !r.deleteMode && r.selected == []
  {
    SelectionState(false, [])
  }

  /** `selectPhoto`: in delete mode, append the entry unless its photo is already selected. */
  function Select(s: SelectionState, photo: Photo, storageType: StorageType): (r: SelectionState)
    ensures r.deleteMode == s.deleteMode
    ensures !s.deleteMode || IsSelected(s.selected, photo) ==> r == s
    ensures s.deleteMode ==> IsSelected(r.selected, photo)
    ensures |s.selected| <= |r.selected| <= |s.selected| + 1 && r.selected[..|s.selected|] == s.selected
    ensures s.deleteMode && !IsSelected(s.selected, photo) ==> r.selected == s.selected + [(photo, storageType)]
  {
    if s.deleteMode && !IsSelected(s.selected, photo) then
      var r := s.(selected := s.selected + [(photo, storageType)]);
      assert r.selected[|s.selected|].0 == photo;
      r
    else s
  }

  /** `togglePhotoSelection`: in delete mode, drop the first entry for the photo, or append one if there is none. */
  function Toggle(s: SelectionState, photo: Photo, storageType: StorageType): (r: SelectionState)
    ensures r.deleteMode == s.deleteMode
    ensures !s.deleteMode ==> r == s
    ensures s.deleteMode ==> |r.selected| == if IsSelected(s.selected, photo) then |s.selected| - 1 else |s.selected| + 1
    ensures s.deleteMode && IsSelected(s.selected, photo) ==>
              r.selected == s.selected[..IndexOfFirst(s.selected, photo)] + s.selected[IndexOfFirst(s.selected, photo) + 1..]
    ensures s.deleteMode && !IsSelected(s.selected, photo) ==> r.selected == s.selected + [(photo, storageType)]
  {
    if !s.deleteMode then s
    else
      var index := IndexOfFirst(s.selected, photo);
      if index != -1 then s.(selected := RemoveAt(s.selected, index))
      else s.(selected := s.selected + [(photo, storageType)])
  }

  /** `deactivateDeleteModeIfNoPhotoLeft`: the selection never changes; delete mode stays on only while something is selected. */
  function DeactivateIfEmpty(s: SelectionState): (r: SelectionState)
    ensures r.selected == s.selected
    ensures r.deleteMode <==> s.deleteMode && s.selected != []
  {
    if s.deleteMode && s.selected == [] then Deactivate(s) else s
  }

  // ---------------------------------------------------------------- delete batch

  /** The delete request for one entry, routed by the storage it came from. */
  function DeleteEvent(e: Entry): (r: StorageEvent)
    ensures r.DeleteInternalStoragePhoto? || r.DeleteScopedStoragePhoto?
    ensures r.photo == e.0
    ensures r.DeleteInternalStoragePhoto? <==> e.1 == Internal
  {
    match e.1
    case Internal => DeleteInternalStoragePhoto(e.0)
    case Scoped => DeleteScopedStoragePhoto(e.0)
  }

  /** One delete request per entry, in selection order. */
  function DeleteEvents(selected: seq<Entry>): (r: seq<StorageEvent>)
  {
    if selected == [] then []
    else DeleteEvents(selected[..|selected| - 1]) + [DeleteEvent(selected[|selected| - 1])]
  }

  /** Everything `deleteSelectedPhotos` emits: the delete requests, then one update per storage. */
  function DeleteBatch(selected: seq<Entry>): (r: seq<StorageEvent>)
  {
    DeleteEvents(selected) + [InternalStorageUpdated, ScopeStorageUpdated]
  }

  /** The batch holds exactly one delete request per entry, at the entry's position and routed by its storage, then the two updates. */
  lemma {:induction false} DeleteBatchRouting(selected: seq<Entry>)
    ensures |DeleteBatch(selected)| == |selected| + 2
    ensures forall i :: 0 <= i < |selected| ==> DeleteBatch(selected)[i] == DeleteEvent(selected[i])
    ensures DeleteBatch(selected)[|selected|] == InternalStorageUpdated
    ensures DeleteBatch(selected)[|selected| + 1] == ScopeStorageUpdated
  {
    DeleteEventsPointwise(selected);
  }

  lemma {:induction false} DeleteEventsPointwise(selected: seq<Entry>)
    ensures |DeleteEvents(selected)| == |selected|
    ensures forall i :: 0 <= i < |selected| ==> DeleteEvents(selected)[i] == DeleteEvent(selected[i])
  {
    if selected != [] {
      DeleteEventsPointwise(selected[..|selected| - 1]);
    }
  }

  /** A photo is asked to be deleted exactly when it is selected, and from the storage its entry names. */
  lemma DeleteRequestedIffSelected(selected: seq<Entry>, photo: Photo, storageType: StorageType)
    ensures DeleteEvent((photo, storageType)) in DeleteBatch(selected) <==> (photo, storageType) in selected
  {
    DeleteBatchRouting(selected);
    var batch := DeleteBatch(selected);
    var e := DeleteEvent((photo, storageType));
    if e in batch {
      var i :| 0 <= i < |batch| && batch[i] == e;
      assert i < |selected|;
      assert selected[i] == (photo, storageType);
    }
    if (photo, storageType) in selected {
      var i :| 0 <= i < |selected| && selected[i] == (photo, storageType);
      assert batch[i] == e;
    }
  }

  // ---------------------------------------------------------------- runs of operations

  /** The view model's selection-changing operations, as one alphabet for runs of them. */
  datatype Operation =
    | ActivateOp
    | DeactivateOp
    | SelectOp(photo: Photo, storageType: StorageType)
    | ToggleOp(photo: Photo, storageType: StorageType)
    | DeactivateIfEmptyOp
    | DeleteSelectedOp

  function Step(s: SelectionState, op: Operation): (r: SelectionState)
  {
    match op
    case ActivateOp => ActivateOrIgnore(s)
    case DeactivateOp => Deactivate(s)
    case SelectOp(p, t) => Select(s, p, t)
    case ToggleOp(p, t) => Toggle(s, p, t)
    case DeactivateIfEmptyOp => DeactivateIfEmpty(s)
    case DeleteSelectedOp => Deactivate(s)
  }

  function Run(s: SelectionState, ops: seq<Operation>): (r: SelectionState)
    decreases |ops|
  {
    if ops == [] then s else Run(Step(s, ops[0]), ops[1..])
  }

  // ---------------------------------------------------------------- properties of the transitions

  /** Activating twice is activating once. */
  lemma ActivateIdempotent(s: SelectionState)
    ensures ActivateOrIgnore(ActivateOrIgnore(s)) == ActivateOrIgnore(s)
  {
  }

  /** Selecting an already-selected photo under another storage keeps the first entry: first write wins. */
  lemma SelectFirstWriteWins(s: SelectionState, photo: Photo, first: StorageType, second: StorageType)
    requires s.deleteMode && !IsSelected(s.selected, photo)
    ensures Select(Select(s, photo, first), photo, second).selected == s.selected + [(photo, first)]
  {
    var s1 := Select(s, photo, first);
    assert s1.selected == s.selected + [(photo, first)];
  }

  /** With a selection that does not hold the photo, toggling it twice restores the selection exactly. */
  lemma ToggleTwiceRestores(s: SelectionState, photo: Photo, storageType: StorageType)
    requires s.deleteMode && !IsSelected(s.selected, photo)
    ensures Toggle(Toggle(s, photo, storageType), photo, storageType) == s
  {
    var s1 := Toggle(s, photo, storageType);
    assert s1.selected == s.selected + [(photo, storageType)];
    assert s1.selected[|s.selected|].0 == photo;
    assert IndexOfFirst(s1.selected, photo) == |s.selected|;
    assert RemoveAt(s1.selected, |s.selected|) == s.selected;
  }

  /**
   * With a selection that already holds the photo, toggling it twice moves its
   * entry to the end under the new storage type, so the selection comes back
   * only if that entry was last and of the same type.
   */
  lemma ToggleTwiceMovesToEnd(s: SelectionState, photo: Photo, storageType: StorageType)
    requires s.deleteMode && UniquePhotos(s.selected) && IsSelected(s.selected, photo)
    ensures Toggle(Toggle(s, photo, storageType), photo, storageType).selected
            == RemoveAt(s.selected, IndexOfFirst(s.selected, photo)) + [(photo, storageType)]
    ensures Toggle(Toggle(s, photo, storageType), photo, storageType) == s
            <==> s.selected[|s.selected| - 1] == (photo, storageType)
  {
    var k := IndexOfFirst(s.selected, photo);
    var s1 := Toggle(s, photo, storageType);
    assert s1.selected == RemoveAt(s.selected, k);
    RemovedIsGone(s.selected, k);
    var r := Toggle(s1, photo, storageType);
    assert r.selected == s1.selected + [(photo, storageType)];
    if s.selected[|s.selected| - 1] == (photo, storageType) {
      assert k == |s.selected| - 1;
      assert r.selected == s.selected;
    }
    if r == s {
      assert s.selected[|s.selected| - 1] == r.selected[|r.selected| - 1];
    }
  }

  /** In a selection with unique photos, removing the entry at `k` leaves no entry for its photo. */
  lemma RemovedIsGone(selected: seq<Entry>, k: int)
    requires UniquePhotos(selected) && 0 <= k < |selected|
    ensures !IsSelected(RemoveAt(selected, k), selected[k].0)
    ensures UniquePhotos(RemoveAt(selected, k))
  {
    var r := RemoveAt(selected, k);
    forall i | 0 <= i < |r| ensures r[i].0 != selected[k].0 {
      if i < k {
        assert r[i] == selected[i];
      } else {
        assert r[i] == selected[i + 1];
      }
    }
    forall i, j | 0 <= i < j < |r| ensures r[i].0 != r[j].0 {
      var i' := if i < k then i else i + 1;
      var j' := if j < k then j else j + 1;
      assert r[i] == selected[i'] && r[j] == selected[j'];
    }
  }

  /** In delete mode and with unique photos, a toggle flips the toggled photo's membership and no other. */
  lemma ToggleFlipsMembership(s: SelectionState, photo: Photo, storageType: StorageType, other: Photo)
    requires s.deleteMode && UniquePhotos(s.selected)
    ensures IsSelected(Toggle(s, photo, storageType).selected, photo) <==> !IsSelected(s.selected, photo)
    ensures other != photo ==>
              (IsSelected(Toggle(s, photo, storageType).selected, other) <==> IsSelected(s.selected, other))
  {
    var r := Toggle(s, photo, storageType);
    var k := IndexOfFirst(s.selected, photo);
    if k != -1 {
      RemovedIsGone(s.selected, k);
      if other != photo {
        SelectedWithout(s.selected, k, other);
        assert RemoveAt(s.selected, k) == s.selected[..k] + s.selected[k + 1..];
      }
    } else {
      assert r.selected == s.selected + [(photo, storageType)];
      assert r.selected[|s.selected|].0 == photo;
      if other != photo && IsSelected(r.selected, other) {
        var i :| 0 <= i < |r.selected| && r.selected[i].0 == other;
        assert i < |s.selected| && s.selected[i] == r.selected[i];
      }
      if IsSelected(s.selected, other) {
        var i :| 0 <= i < |s.selected| && s.selected[i].0 == other;
        assert r.selected[i] == s.selected[i];
      }
    }
  }

  /** Read as a set of selected photos, the selection does come back after two toggles. */
  lemma ToggleTwiceRestoresMembership(s: SelectionState, photo: Photo, storageType: StorageType, other: Photo)
    requires s.deleteMode && UniquePhotos(s.selected)
    ensures IsSelected(Toggle(Toggle(s, photo, storageType), photo, storageType).selected, other)
            <==> IsSelected(s.selected, other)
  {
    ToggleKeepsInvariant(s, photo, storageType);
    ToggleFlipsMembership(s, photo, storageType, other);
    ToggleFlipsMembership(Toggle(s, photo, storageType), photo, storageType, other);
  }

  lemma SelectKeepsInvariant(s: SelectionState, photo: Photo, storageType: StorageType)
    requires Invariant(s)
    ensures Invariant(Select(s, photo, storageType))
  {
    var r := Select(s, photo, storageType);
    if r != s {
      forall i, j | 0 <= i < j < |r.selected| ensures r.selected[i].0 != r.selected[j].0 {
        if j == |s.selected| {
          assert r.selected[i] == s.selected[i];
        }
      }
    }
  }

  lemma ToggleKeepsInvariant(s: SelectionState, photo: Photo, storageType: StorageType)
    requires Invariant(s)
    ensures Invariant(Toggle(s, photo, storageType))
  {
    if s.deleteMode {
      var k := IndexOfFirst(s.selected, photo);
      if k != -1 {
        RemovedIsGone(s.selected, k);
      } else {
        var r := Toggle(s, photo, storageType);
        forall i, j | 0 <= i < j < |r.selected| ensures r.selected[i].0 != r.selected[j].0 {
          if j == |s.selected| {
            assert r.selected[i] == s.selected[i];
          }
        }
      }
    }
  }

  /** Every operation keeps the invariant. */
  lemma StepKeepsInvariant(s: SelectionState, op: Operation)
    requires Invariant(s)
    ensures Invariant(Step(s, op))
  {
    match op
    case SelectOp(p, t) => SelectKeepsInvariant(s, p, t);
    case ToggleOp(p, t) => ToggleKeepsInvariant(s, p, t);
    case _ =>
  }

  /** Every state reachable from the initial one satisfies the invariant. */
  lemma {:induction false} ReachableStatesKeepInvariant(s: SelectionState, ops: seq<Operation>)
    requires Invariant(s)
    ensures Invariant(Run(s, ops))
    decreases |ops|
  {
    if ops != [] {
      StepKeepsInvariant(s, ops[0]);
      ReachableStatesKeepInvariant(Step(s, ops[0]), ops[1..]);
    }
  }

  lemma InitialInvariant()
    ensures Invariant(Initial)
    ensures forall ops :: Invariant(Run(Initial, ops))
  {
    forall ops ensures Invariant(Run(Initial, ops)) {
      ReachableStatesKeepInvariant(Initial, ops);
    }
  }

  // ---------------------------------------------------------------- the view model

  class MainViewModel {
    var deleteMode: bool
    var selectedPhotos: seq<Entry>
    /** The two permission grants; each is empty until it is first set. */
    var readGranted: Option<bool>
    var writeGranted: Option<bool>
    /** Every event emitted on the storage event channel, in the order it was sent. */
    var events: seq<StorageEvent>

    ghost function State(): SelectionState
      reads this
    {
      SelectionState(deleteMode, selectedPhotos)
    }

    ghost predicate Valid()
      reads this
    {
      Invariant(State())
    }

    constructor ()
      ensures State() == Initial && Valid()
      ensures readGranted == None && writeGranted == None && events == []
    {
      deleteMode := false;
      selectedPhotos := [];
      readGranted := None;
      writeGranted := None;
      events := [];
    }

    /**
     * The value `shouldRequestPermission` last emitted: nothing until both
     * grants have been set, then whether either grant is missing.
     */
    function ShouldRequestPermissionNow(): (r: Option<bool>)
      reads this
      ensures r.Some? <==> writeGranted.Some? && readGranted.Some?
      ensures r.Some? ==> r.value == ShouldRequestPermission(writeGranted.value, readGranted.value)
    {
      if writeGranted.Some? && readGranted.Some? then
        Some(ShouldRequestPermission(writeGranted.value, readGranted.value))
      else None
    }

    /** `sendEvent`: the event joins the channel's log. */
    method SendEvent(event: StorageEvent)
      modifies this`events
      ensures events == old(events) + [event]
    {
      events := events + [event];
    }

    method SetPermissionsGranted(hasReadPermission: bool, hasWritePermission: bool)
      modifies this`readGranted, this`writeGranted, this`events
      ensures readGranted == Some(hasReadPermission) && writeGranted == Some(hasWritePermission)
      ensures events == old(events) + [InternalStorageUpdated, ScopeStorageUpdated]
      ensures ShouldRequestPermissionNow() == Some(!hasWritePermission || !hasReadPermission)
    {
      readGranted := Some(hasReadPermission);
      writeGranted := Some(hasWritePermission);
      SendEvent(InternalStorageUpdated);
      SendEvent(ScopeStorageUpdated);
    }

    method ActivateDeleteMode()
      modifies this`deleteMode
      ensures deleteMode
    {
      deleteMode := true;
    }

    method DeactivateDeleteMode()
      modifies this`deleteMode, this`selectedPhotos
      ensures State() == Deactivate(old(State())) && Valid()
    {
      deleteMode := false;
      selectedPhotos := [];
    }

    method ActivateDeleteModeOrIgnore()
      modifies this`deleteMode
      ensures State() == ActivateOrIgnore(old(State()))
      ensures old(Valid()) ==> Valid()
    {
      var isDeleteModePassive := !deleteMode;
      if isDeleteModePassive {
        ActivateDeleteMode();
      }
    }

    method SelectPhoto(photo: Photo, storageType: StorageType)
      modifies this`selectedPhotos
      ensures State() == Select(old(State()), photo, storageType)
      ensures old(Valid()) ==> Valid()
    {
      ghost var before := State();
      var isDeleteModeActive := deleteMode;
      if isDeleteModeActive {
        var newSelectedPhotos := selectedPhotos;
        var isPhotoSelected := exists i | 0 <= i < |newSelectedPhotos| :: newSelectedPhotos[i].0 == photo;
        if !isPhotoSelected {
          newSelectedPhotos := newSelectedPhotos + [(photo, storageType)];
        }
        selectedPhotos := newSelectedPhotos;
      }
      if Invariant(before) {
        SelectKeepsInvariant(before, photo, storageType);
      }
    }

    method TogglePhotoSelection(photo: Photo, storageType: StorageType)
      modifies this`selectedPhotos
      ensures State() == Toggle(old(State()), photo, storageType)
      ensures old(Valid()) ==> Valid()
    {
      ghost var before := State();
      var isDeleteModeActive := deleteMode;
      if isDeleteModeActive {
        var newSelectedPhotos := selectedPhotos;
        var index := IndexOfFirst(newSelectedPhotos, photo);
        if index != -1 {
          newSelectedPhotos := RemoveAt(newSelectedPhotos, index);
        } else {
          newSelectedPhotos := newSelectedPhotos + [(photo, storageType)];
        }
        selectedPhotos := newSelectedPhotos;
      }
      if Invariant(before) {
        ToggleKeepsInvariant(before, photo, storageType);
      }
    }

    method DeactivateDeleteModeIfNoPhotoLeft()
      modifies this`deleteMode, this`selectedPhotos
      ensures State() == DeactivateIfEmpty(old(State()))
      ensures old(Valid()) ==> Valid()
    {
      var isDeleteModeActive := deleteMode;
      if isDeleteModeActive {
        if selectedPhotos == [] {
          DeactivateDeleteMode();
        }
      }
    }

    method DeleteInternalStoragePhoto(photo: Photo)
      modifies this`events
      ensures events == old(events) + [StorageEvent.DeleteInternalStoragePhoto(photo)]
    {
      events := events + [StorageEvent.DeleteInternalStoragePhoto(photo)];
    }

    method DeleteScopedStoragePhoto(photo: Photo)
      modifies this`events
      ensures events == old(events) + [StorageEvent.DeleteScopedStoragePhoto(photo)]
    {
      events := events + [StorageEvent.DeleteScopedStoragePhoto(photo)];
    }

    /** `deleteSelectedPhotos`: a delete request per selected entry, both updates, then delete mode off. */
    method DeleteSelectedPhotos()
      modifies this`deleteMode, this`selectedPhotos, this`events
      ensures events == old(events) + DeleteBatch(old(selectedPhotos))
      ensures State() == Deactivate(old(State())) && Valid()
    {
      var selected := selectedPhotos;
      var i := 0;
      while i < |selected|
        invariant 0 <= i <= |selected|
        invariant events == old(events) + DeleteEvents(selected[..i])
        invariant selectedPhotos == selected
      {
        var (photo, storageType) := selected[i];
        match storageType {
          case Internal => DeleteInternalStoragePhoto(photo);
          case Scoped => DeleteScopedStoragePhoto(photo);
        }
        i := i + 1;
        assert selected[..i][..i - 1] == selected[..i - 1];
      }
      assert selected[..i] == selected;
      SendEvent(InternalStorageUpdated);
      SendEvent(ScopeStorageUpdated);
      DeactivateDeleteMode();
    }
  }
}
