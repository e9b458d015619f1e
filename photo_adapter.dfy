/**
 * The photo grid's list adapter: which rows it re-renders when the selection
 * changes, how a row reacts to a partial-update payload, and how two photos are
 * compared when a new list is diffed against the old one.
 */
module PhotoAdapter {
  import opened Lists
  import opened StorageTypes

  /** A photo is nothing but its locator; two photos are equal exactly when their urls are. */
  datatype Photo = Photo(url: string)

  /** A selected photo together with the storage it was picked from (a `Pair<Photo, StorageType>`). */
  type Entry = (Photo, StorageType)

  /** `selected.any { it.first == photo }`: some entry holds this photo, whatever its storage. */
  predicate IsSelected(selected: seq<Entry>, photo: Photo) {
    exists i :: 0 <= i < |selected| && selected[i].0 == photo
  }

  /** Selection ignores the storage type: a photo is selected exactly when it is selected under one storage or the other. */
  lemma IsSelectedUnderSomeStorage(selected: seq<Entry>, photo: Photo)
    ensures IsSelected(selected, photo) <==> (photo, Internal) in selected || (photo, Scoped) in selected
  {
    if IsSelected(selected, photo) {
      var i :| 0 <= i < |selected| && selected[i].0 == photo;
      assert selected[i] in selected;
      match selected[i].1
      case Internal => assert selected[i] == (photo, Internal);
      case Scoped => assert selected[i] == (photo, Scoped);
    }
  }

  // ---------------------------------------------------------------- DiffUtil

  /** `areItemsTheSame`: the same item exactly when the urls agree, which is photo equality. */
  function AreItemsTheSame(oldItem: Photo, newItem: Photo): (r: bool)
    ensures r <==> oldItem == newItem
  {
    oldItem.url == newItem.url
  }

  /** `areContentsTheSame`: data-class equality, which a one-field photo makes the same test as identity. */
  function AreContentsTheSame(oldItem: Photo, newItem: Photo): (r: bool)
    ensures r <==> AreItemsTheSame(oldItem, newItem)
  {
    oldItem == newItem
  }

  // ---------------------------------------------------------------- payloads

  /** The two payload constants; they differ in case as well as in spelling. */
  const SELECTED: string := "selected"
  const DESELECTED: string := "DESELECTED"

  /** What a row does when it is rebound with a list of payloads. */
  datatype Binding =
    | ShowCheckIcon   // the check mark becomes visible
    | HideCheckIcon   // the check mark is hidden
    | FullBind        // the default path: the whole row (image, listeners) is bound again

  /** The payload form of `onBindViewHolder`: only the LAST payload decides. */
  function OnBindViewHolder(payloads: seq<string>): (r: Binding)
    ensures r == ShowCheckIcon <==> |payloads| > 0 && payloads[|payloads| - 1] == SELECTED
    ensures r == HideCheckIcon <==> |payloads| > 0 && payloads[|payloads| - 1] == DESELECTED
    ensures r == FullBind <==> payloads == [] || payloads[|payloads| - 1] !in {SELECTED, DESELECTED}
  {
    if |payloads| > 0 && payloads[|payloads| - 1] == SELECTED then ShowCheckIcon
    else if |payloads| > 0 && payloads[|payloads| - 1] == DESELECTED then HideCheckIcon
    else FullBind
  }

  // ---------------------------------------------------------------- selection notifications

  /** One `notifyItemChanged(position, payload)` call. */
  type Notification = (int, string)

  /**
   * The first loop of `setSelectedPhotos`: for each selected entry in order, a
   * SELECTED notification at the first position of its photo in `list`, when it is there.
   */
  function SelectedNotifications(list: seq<Photo>, selected: seq<Entry>): (r: seq<Notification>)
  {
    if selected == [] then []
    else
      var k := IndexOf(list, selected[|selected| - 1].0);
      SelectedNotifications(list, selected[..|selected| - 1]) + (if k != -1 then [(k, SELECTED)] else [])
  }

  /**
   * The second loop of `setSelectedPhotos`, over the first `n` positions: a
   * DESELECTED notification at every position whose photo is not selected.
   */
  function DeselectedNotifications(list: seq<Photo>, selected: seq<Entry>, n: nat): (r: seq<Notification>)
    requires n <= |list|
  {
    if n == 0 then []
    else
      DeselectedNotifications(list, selected, n - 1)
      + (if !IsSelected(selected, list[n - 1]) then [(n - 1, DESELECTED)] else [])
  }

  /** Every notification `setSelectedPhotos` issues, in the order it issues them. */
  function Notifications(list: seq<Photo>, selected: seq<Entry>): (r: seq<Notification>)
  {
    SelectedNotifications(list, selected) + DeselectedNotifications(list, selected, |list|)
  }

  /**
   * The payloads one position has accumulated from a run of notifications, in
   * order: the list RecyclerView hands to the payload form of `onBindViewHolder`.
   */
  function PayloadsAt(log: seq<Notification>, position: int): (r: seq<string>)
  {
    if log == [] then []
    else
      var last := log[|log| - 1];
      PayloadsAt(log[..|log| - 1], position) + (if last.0 == position then [last.1] else [])
  }

  /** The adapter: the list it currently shows and every `notifyItemChanged` it has issued. */
  class PhotoAdapter {
    var currentList: seq<Photo>
    var changes: seq<Notification>

    /**
     * A new adapter, taken at the point where `submitList` has installed `list`.
     * The two click callbacks the Kotlin constructor takes are not modelled.
     */
    constructor (list: seq<Photo>)
      ensures currentList == list && changes == []
    {
      currentList := list;
      changes := [];
    }

    /** `notifyItemChanged(position, payload)`, recorded rather than dispatched. */
    method NotifyItemChanged(position: int, payload: string)
      modifies this`changes
      ensures changes == old(changes) + [(position, payload)]
    {
      changes := changes + [(position, payload)];
    }

    /** `setSelectedPhotos`: notify the rows of the selected photos, then every other row. */
    method SetSelectedPhotos(selected: seq<Entry>)
      modifies this`changes
      ensures currentList == old(currentList)
      ensures changes == old(changes) + Notifications(currentList, selected)
    {
      var k := 0;
      while k < |selected|
        invariant 0 <= k <= |selected|
        invariant changes == old(changes) + SelectedNotifications(currentList, selected[..k])
      {
        var photo := selected[k].0;
        var indexOfPhoto := IndexOf(currentList, photo);
        SelectedNotificationsStep(currentList, selected, k);
        if indexOfPhoto != -1 {
          NotifyItemChanged(indexOfPhoto, SELECTED);
        }
        k := k + 1;
      }
      assert selected[..k] == selected;
      ghost var afterFirstLoop := changes;
      var i := 0;
      while i < |currentList|
        invariant 0 <= i <= |currentList|
        invariant changes == afterFirstLoop + DeselectedNotifications(currentList, selected, i)
      {
        var photo := currentList[i];
        DeselectedNotificationsStep(currentList, selected, i);
        if !IsSelected(selected, photo) {
          NotifyItemChanged(i, DESELECTED);
        }
        i := i + 1;
      }
      assert changes == old(changes) + (SelectedNotifications(currentList, selected)
                                        + DeselectedNotifications(currentList, selected, |currentList|));
    }
  }

  /** One more row adds at most its own DESELECTED notification. */
  lemma DeselectedNotificationsStep(list: seq<Photo>, selected: seq<Entry>, i: int)
    requires 0 <= i < |list|
    ensures DeselectedNotifications(list, selected, i + 1)
            == DeselectedNotifications(list, selected, i)
               + (if IsSelected(selected, list[i]) then [] else [(i, DESELECTED)])
  {
  }

  /** One more entry of the selection adds at most its own SELECTED notification. */
  lemma SelectedNotificationsStep(list: seq<Photo>, selected: seq<Entry>, k: int)
    requires 0 <= k < |selected|
    ensures SelectedNotifications(list, selected[..k + 1])
            == SelectedNotifications(list, selected[..k])
               + (if IndexOf(list, selected[k].0) != -1 then [(IndexOf(list, selected[k].0), SELECTED)] else [])
  {
    assert selected[..k + 1][..k] == selected[..k];
  }

  // ---------------------------------------------------------------- properties of setSelectedPhotos

  /** Every SELECTED notification marks the first position of a photo that is selected. */
  lemma {:induction false} SelectedNotificationsSound(list: seq<Photo>, selected: seq<Entry>)
    ensures forall j :: 0 <= j < |SelectedNotifications(list, selected)| ==>
              && SelectedNotifications(list, selected)[j].1 == SELECTED
              && 0 <= SelectedNotifications(list, selected)[j].0 < |list|
              && IndexOf(list, list[SelectedNotifications(list, selected)[j].0]) == SelectedNotifications(list, selected)[j].0
              && IsSelected(selected, list[SelectedNotifications(list, selected)[j].0])
  {
    if selected != [] {
      var init := selected[..|selected| - 1];
      SelectedNotificationsSound(list, init);
      assert forall p :: IsSelected(init, p) ==> IsSelected(selected, p) by {
        forall p | IsSelected(init, p) ensures IsSelected(selected, p) {
          var i :| 0 <= i < |init| && init[i].0 == p;
          assert selected[i].0 == p;
        }
      }
      var last := |selected| - 1;
      assert IsSelected(selected, selected[last].0);
    }
  }

  /** Every DESELECTED notification marks a position, among the first `n`, whose photo is not selected. */
  lemma {:induction false} DeselectedNotificationsSound(list: seq<Photo>, selected: seq<Entry>, n: nat)
    requires n <= |list|
    ensures forall j :: 0 <= j < |DeselectedNotifications(list, selected, n)| ==>
              && DeselectedNotifications(list, selected, n)[j].1 == DESELECTED
              && 0 <= DeselectedNotifications(list, selected, n)[j].0 < n
              && !IsSelected(selected, list[DeselectedNotifications(list, selected, n)[j].0])
  {
    if n > 0 {
      DeselectedNotificationsSound(list, selected, n - 1);
    }
  }

  /** Every position among the first `n` whose photo is not selected is notified DESELECTED. */
  lemma {:induction false} DeselectedNotificationsComplete(list: seq<Photo>, selected: seq<Entry>, n: nat, i: int)
    requires n <= |list| && 0 <= i < n && !IsSelected(selected, list[i])
    ensures (i, DESELECTED) in DeselectedNotifications(list, selected, n)
  {
    var prev := DeselectedNotifications(list, selected, n - 1);
    var step := if IsSelected(selected, list[n - 1]) then [] else [(n - 1, DESELECTED)];
    assert DeselectedNotifications(list, selected, n) == prev + step;
    if i < n - 1 {
      DeselectedNotificationsComplete(list, selected, n - 1, i);
      assert (i, DESELECTED) in prev;
    } else {
      assert step == [(i, DESELECTED)];
    }
  }

  lemma {:induction false} SelectedNotificationsAppend(list: seq<Photo>, a: seq<Entry>, b: seq<Entry>)
    ensures SelectedNotifications(list, a + b) == SelectedNotifications(list, a) + SelectedNotifications(list, b)
    decreases |b|
  {
    if b == [] {
      assert a + b == a;
    } else {
      var b' := b[..|b| - 1];
      assert (a + b)[..|a + b| - 1] == a + b';
      assert (a + b)[|a + b| - 1] == b[|b| - 1];
      SelectedNotificationsAppend(list, a, b');
    }
  }

  /** Each selected photo shown in the list is notified SELECTED at its first position. */
  lemma SelectedAtFirstOccurrence(list: seq<Photo>, selected: seq<Entry>, j: int)
    requires 0 <= j < |selected| && selected[j].0 in list
    ensures (IndexOf(list, selected[j].0), SELECTED) in Notifications(list, selected)
  {
    var pre := selected[..j];
    var post := selected[j + 1..];
    assert selected == pre + [selected[j]] + post;
    SelectedNotificationsAppend(list, pre + [selected[j]], post);
    SelectedNotificationsAppend(list, pre, [selected[j]]);
    assert [selected[j]][..0] == [];
    assert (IndexOf(list, selected[j].0), SELECTED) in SelectedNotifications(list, [selected[j]]);
  }

  /** A selected entry whose photo the list does not show contributes no notification at all. */
  lemma AbsentSelectionIgnored(list: seq<Photo>, selected: seq<Entry>, j: int)
    requires 0 <= j < |selected| && selected[j].0 !in list
    ensures Notifications(list, selected) == Notifications(list, selected[..j] + selected[j + 1..])
  {
    var rest := selected[..j] + selected[j + 1..];
    AbsentSelectionSkipped(list, selected, j);
    forall i | 0 <= i < |list| ensures IsSelected(selected, list[i]) <==> IsSelected(rest, list[i]) {
      SelectedWithout(selected, j, list[i]);
    }
    DeselectedAgree(list, selected, rest, |list|);
  }

  lemma AbsentSelectionSkipped(list: seq<Photo>, selected: seq<Entry>, j: int)
    requires 0 <= j < |selected| && selected[j].0 !in list
    ensures SelectedNotifications(list, selected) == SelectedNotifications(list, selected[..j] + selected[j + 1..])
  {
    var pre := selected[..j];
    var post := selected[j + 1..];
    assert selected == pre + [selected[j]] + post;
    SelectedNotificationsAppend(list, pre + [selected[j]], post);
    SelectedNotificationsAppend(list, pre, [selected[j]]);
    SelectedNotificationsAppend(list, pre, post);
    assert [selected[j]][..0] == [];
    assert IndexOf(list, selected[j].0) == -1;
    assert SelectedNotifications(list, [selected[j]]) == [];
    calc {
      SelectedNotifications(list, selected);
      SelectedNotifications(list, pre + [selected[j]]) + SelectedNotifications(list, post);
      SelectedNotifications(list, pre) + SelectedNotifications(list, post);
      SelectedNotifications(list, pre + post);
    }
  }

  /** Dropping the entry at `j` leaves every other photo's selection as it was. */
  lemma SelectedWithout(selected: seq<Entry>, j: int, photo: Photo)
    requires 0 <= j < |selected| && selected[j].0 != photo
    ensures IsSelected(selected, photo) <==> IsSelected(selected[..j] + selected[j + 1..], photo)
  {
    var rest := selected[..j] + selected[j + 1..];
    if IsSelected(selected, photo) {
      var k :| 0 <= k < |selected| && selected[k].0 == photo;
      if k < j { assert rest[k] == selected[k]; } else { assert rest[k - 1] == selected[k]; }
    }
    if IsSelected(rest, photo) {
      var k :| 0 <= k < |rest| && rest[k].0 == photo;
      if k < j { assert rest[k] == selected[k]; } else { assert rest[k] == selected[k + 1]; }
    }
  }

  lemma {:induction false} DeselectedAgree(list: seq<Photo>, s1: seq<Entry>, s2: seq<Entry>, n: nat)
    requires n <= |list|
    requires forall i :: 0 <= i < |list| ==> (IsSelected(s1, list[i]) <==> IsSelected(s2, list[i]))
    ensures DeselectedNotifications(list, s1, n) == DeselectedNotifications(list, s2, n)
  {
    if n > 0 {
      DeselectedAgree(list, s1, s2, n - 1);
    }
  }

  /** How many times `x` occurs in `s`. */
  function Occurrences<T(==)>(s: seq<T>, x: T): nat
  {
    if s == [] then 0
    else Occurrences(s[..|s| - 1], x) + if s[|s| - 1] == x then 1 else 0
  }

  /** `Occurrences` is multiset multiplicity. */
  lemma {:induction false} OccurrencesAreMultiplicity<T>(s: seq<T>, x: T)
    ensures Occurrences(s, x) == multiset(s)[x]
  {
    if s != [] {
      OccurrencesAreMultiplicity(s[..|s| - 1], x);
      assert s == s[..|s| - 1] + [s[|s| - 1]];
    }
  }

  lemma {:induction false} DeselectedCount(list: seq<Photo>, selected: seq<Entry>, n: nat, i: int)
    requires n <= |list| && 0 <= i < |list|
    ensures Occurrences(DeselectedNotifications(list, selected, n), (i, DESELECTED))
            == if i < n && !IsSelected(selected, list[i]) then 1 else 0
  {
    if n > 0 {
      DeselectedCount(list, selected, n - 1, i);
      var prev := DeselectedNotifications(list, selected, n - 1);
      var whole := DeselectedNotifications(list, selected, n);
      var selectedHere := IsSelected(selected, list[n - 1]);
      if selectedHere {
        assert whole == prev;
      } else {
        var notification: Notification := (n - 1, DESELECTED);
        assert whole == prev + [notification];
        assert whole[..|whole| - 1] == prev;
        assert Occurrences(whole, (i, DESELECTED))
               == Occurrences(prev, (i, DESELECTED)) + if i == n - 1 then 1 else 0;
      }
      if i == n - 1 {
        assert IsSelected(selected, list[i]) == selectedHere;
      }
    } else {
      assert DeselectedNotifications(list, selected, n) == [];
    }
  }

  /** A row whose photo is not selected is notified DESELECTED exactly once; a selected one never. */
  lemma DeselectedExactlyOnce(list: seq<Photo>, selected: seq<Entry>, i: int)
    requires 0 <= i < |list|
    ensures multiset(Notifications(list, selected))[(i, DESELECTED)]
            == if IsSelected(selected, list[i]) then 0 else 1
  {
    SelectedNotificationsSound(list, selected);
    assert (i, DESELECTED) !in SelectedNotifications(list, selected);
    DeselectedCount(list, selected, |list|, i);
    OccurrencesAreMultiplicity(DeselectedNotifications(list, selected, |list|), (i, DESELECTED));
  }

  /**
   * Where each notification goes and what it carries: the SELECTED ones come
   * first and sit at the first position of a selected photo; the rest are
   * DESELECTED and sit at a position whose photo is not selected.
   */
  lemma NotificationShape(list: seq<Photo>, selected: seq<Entry>)
    ensures forall a :: 0 <= a < |Notifications(list, selected)| ==>
              && 0 <= Notifications(list, selected)[a].0 < |list|
              && (Notifications(list, selected)[a].1 == SELECTED <==> a < |SelectedNotifications(list, selected)|)
              && (Notifications(list, selected)[a].1 == SELECTED ==>
                    && IsSelected(selected, list[Notifications(list, selected)[a].0])
                    && IndexOf(list, list[Notifications(list, selected)[a].0]) == Notifications(list, selected)[a].0)
              && (Notifications(list, selected)[a].1 != SELECTED ==>
                    && Notifications(list, selected)[a].1 == DESELECTED
                    && !IsSelected(selected, list[Notifications(list, selected)[a].0]))
  {
    var sel := SelectedNotifications(list, selected);
    var des := DeselectedNotifications(list, selected, |list|);
    SelectedNotificationsSound(list, selected);
    DeselectedNotificationsSound(list, selected, |list|);
    var log: seq<Notification> := sel + des;
    forall a | 0 <= a < |log|
      ensures && 0 <= log[a].0 < |list|
              && (log[a].1 == SELECTED <==> a < |sel|)
              && (log[a].1 == SELECTED ==> IsSelected(selected, list[log[a].0]) && IndexOf(list, list[log[a].0]) == log[a].0)
              && (log[a].1 != SELECTED ==> log[a].1 == DESELECTED && !IsSelected(selected, list[log[a].0]))
    {
      if a >= |sel| {
        assert log[a] == des[a - |sel|];
      } else {
        assert log[a] == sel[a];
      }
    }
  }

  /** No row is notified both SELECTED and DESELECTED. */
  lemma NoPositionGetsBothPayloads(list: seq<Photo>, selected: seq<Entry>)
    ensures forall a, b ::
              0 <= a < |Notifications(list, selected)| && 0 <= b < |Notifications(list, selected)|
              && Notifications(list, selected)[a].0 == Notifications(list, selected)[b].0
              ==> Notifications(list, selected)[a].1 == Notifications(list, selected)[b].1
  {
    NotificationShape(list, selected);
  }

  /** A later repeat of a selected photo in the list is notified neither way. */
  lemma RepeatsAreNotNotified(list: seq<Photo>, selected: seq<Entry>, j: int)
    requires 0 <= j < |list| && IsSelected(selected, list[j]) && IndexOf(list, list[j]) != j
    ensures forall a :: 0 <= a < |Notifications(list, selected)| ==> Notifications(list, selected)[a].0 != j
  {
    NotificationShape(list, selected);
  }

  /** Every SELECTED notification comes before every DESELECTED one, and they are the only payloads. */
  lemma SelectedBeforeDeselected(list: seq<Photo>, selected: seq<Entry>)
    ensures forall a :: 0 <= a < |Notifications(list, selected)| ==>
              Notifications(list, selected)[a].1 in {SELECTED, DESELECTED}
    ensures forall a, b :: 0 <= a < b < |Notifications(list, selected)|
              && Notifications(list, selected)[a].1 == DESELECTED
              ==> Notifications(list, selected)[b].1 == DESELECTED
  {
    NotificationShape(list, selected);
  }

  /** The payloads of a position are exactly those the log pairs with it. */
  lemma {:induction false} PayloadsAtExact(log: seq<Notification>, position: int)
    ensures forall a :: 0 <= a < |log| && log[a].0 == position ==> log[a].1 in PayloadsAt(log, position)
    ensures forall x :: x in PayloadsAt(log, position) ==> (position, x) in log
  {
    if log != [] {
      var init := log[..|log| - 1];
      PayloadsAtExact(init, position);
      assert forall a :: 0 <= a < |init| ==> init[a] == log[a];
    }
  }

  /**
   * End to end: after `setSelectedPhotos`, rebinding row `i` with the payloads it
   * received shows the check mark on the first row of each selected photo and
   * hides it on every unselected row. A later repeat of a selected photo gets no
   * payload, so this call leaves it as it was; a later rebind of it is a full bind.
   */
  lemma CheckIconReflectsSelection(list: seq<Photo>, selected: seq<Entry>, i: int)
    requires 0 <= i < |list|
    ensures OnBindViewHolder(PayloadsAt(Notifications(list, selected), i))
            == if !IsSelected(selected, list[i]) then HideCheckIcon
               else if IndexOf(list, list[i]) == i then ShowCheckIcon
               else FullBind
  {
    var log := Notifications(list, selected);
    if !IsSelected(selected, list[i]) {
      DeselectedNotificationsComplete(list, selected, |list|, i);
      assert (i, DESELECTED) in log;
      NoPositionGetsBothPayloads(list, selected);
      LastPayload(log, i, DESELECTED);
    } else if IndexOf(list, list[i]) == i {
      var j :| 0 <= j < |selected| && selected[j].0 == list[i];
      SelectedAtFirstOccurrence(list, selected, j);
      NoPositionGetsBothPayloads(list, selected);
      LastPayload(log, i, SELECTED);
    } else {
      RepeatsAreNotNotified(list, selected, i);
      NoPayloads(log, i);
    }
  }

  /** When `(position, p)` is in the log and the log never pairs a position with two payloads, that position's payloads end with `p`. */
  lemma LastPayload(log: seq<Notification>, position: int, p: string)
    requires (position, p) in log
    requires forall a, b :: 0 <= a < |log| && 0 <= b < |log| && log[a].0 == log[b].0 ==> log[a].1 == log[b].1
    ensures |PayloadsAt(log, position)| > 0
    ensures PayloadsAt(log, position)[|PayloadsAt(log, position)| - 1] == p
  {
    PayloadsAtExact(log, position);
    var r := PayloadsAt(log, position);
    var a :| 0 <= a < |log| && log[a] == (position, p);
    assert p in r;
    var x := r[|r| - 1];
    assert x in r;
    var b :| 0 <= b < |log| && log[b] == (position, x);
  }

  lemma {:induction false} NoPayloads(log: seq<Notification>, position: int)
    requires forall a :: 0 <= a < |log| ==> log[a].0 != position
    ensures PayloadsAt(log, position) == []
  {
    if log != [] {
      NoPayloads(log[..|log| - 1], position);
    }
  }
}
