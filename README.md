# StorageCamera — a verified model of the selection and capture logic

StorageCamera is a small Android app. It takes pictures and stores them in one of two places:

- the app's private internal storage;
- the scoped (MediaStore) storage.

Each place is listed on its own pager page. The view model also carries a *delete mode* with an ordered selection of photos: operations to enter and leave it, select and toggle photos, and ask for every selected photo to be deleted. The adapter can mark the selected rows. In this code no gesture reaches those selection operations: the pages build their adapter with its default no-op click callbacks (`PhotoFragment.kt:28-30`, `PhotoAdapter.kt:14-17`), and nothing calls `selectPhoto`, `togglePhotoSelection`, `activateDeleteModeOrIgnore`, `deactivateDeleteModeIfNoPhotoLeft` or `setSelectedPhotos`. The model covers the operations as they are defined.

This project models the logic behind that screen in Dafny:

- `storage_type.dfy`: module `StorageTypes`. The two storages, `Internal` and `Scoped`.
- `photo_adapter.dfy`: module `PhotoAdapter`. It covers:
  - `Photo`, an entry `(Photo, StorageType)` and the adapter's DiffUtil callbacks;
  - the payload form of `onBindViewHolder`;
  - `setSelectedPhotos`, in class `PhotoAdapter`. Its `currentList` is a field and every `notifyItemChanged(position, payload)` call is appended to a `changes` log. The two loops of `setSelectedPhotos` are proved to issue exactly `Notifications(currentList, selected)`. Lemmas then state what that log means for each row.
- `main_view_model.dfy`: module `ViewModel`. It covers:
  - the `StorageEvent` type;
  - the `shouldRequestPermission` rule;
  - the selection operations, first as pure transitions on a `SelectionState(deleteMode, selected)`;
  - class `MainViewModel`, whose methods update the `deleteMode`, `selectedPhotos`, permission and `events` fields in place. Each method is proved to follow its transition. The storage event channel is modelled as the `events` log of everything emitted, in program order.
- `main_activity.dfy`: module `MainActivity`. It covers:
  - the pager's page-to-storage mapping and the tab titles;
  - capture routing and the generated file and display names;
  - the media-store collection choice and `sdk29AndUp`;
  - the permission-grant rule and `requestPermissionsIfNeeded`, written as an imperative method;
  - `updatePermissionsStatus`, acting on a `MainViewModel`;
  - the `View.isHidden` property, on a small `View` class.

  Platform queries are parameters: permission checks, `Build.VERSION.SDK_INT`, the random UUID string, and whether the camera returned a bitmap. What saving a picture does is returned as a list of `CaptureEffect`s: a private file written, a media-store record inserted, or an event sent.
- `lists.dfy` and `wrappers.dfy`: `indexOf`, `removeAt` and an `Option` type.

Behaviour of the code worth knowing:

- **Toggling twice.** Toggling twice restores the selection list only when the photo was not selected to begin with (`ToggleTwiceRestores`), or when its entry was already last and had the same storage type (`ToggleTwiceMovesToEnd`). Otherwise the first toggle removes the photo's entry and the second re-appends it at the end under the storage type of the second call (`MainViewModel.kt:89-97`). Read as a set of selected photos, the selection always comes back (`ToggleTwiceRestoresMembership`).
- **Payload strings.** The two payload constants differ in case (`"selected"` and `"DESELECTED"`, `PhotoAdapter.kt:98-99`). The model keeps them as written. They are distinct, which is all the dispatch needs.
- **`isHidden` and `GONE`.** The getter (`MainActivity.kt:322`) counts only `INVISIBLE` as hidden. A `GONE` view therefore reads as not hidden. The model keeps that.

## Model

| member | source | states |
|---|---|---|
| PhotoAdapter.AreItemsTheSame | app/src/main/java/com/oguzhanaslann/storagecamera/PhotoAdapter.kt:92-93 | two photos are the same item exactly when they are equal, because a photo is only its url |
| PhotoAdapter.AreContentsTheSame | app/src/main/java/com/oguzhanaslann/storagecamera/PhotoAdapter.kt:95-96 | content equality coincides with item identity for the one-field `Photo` |
| PhotoAdapter.IsSelectedUnderSomeStorage | app/src/main/java/com/oguzhanaslann/storagecamera/PhotoAdapter.kt:61 | `any { it.first == photo }` (`IsSelected`) ignores the storage type: a photo is selected exactly when it is selected as internal or as scoped |
| PhotoAdapter.OnBindViewHolder | app/src/main/java/com/oguzhanaslann/storagecamera/PhotoAdapter.kt:34-46 | only the last payload counts: `SELECTED` shows the check icon, `DESELECTED` hides it, and anything else, including no payload, falls back to a full bind (each as an if-and-only-if) |
| PhotoAdapter.PhotoAdapter.constructor | app/src/main/java/com/oguzhanaslann/storagecamera/PhotoAdapter.kt:14-17 | a fresh adapter, taken once `submitList` has installed `list`, shows that list and has issued no notifications (the two click callbacks are not modelled) |
| PhotoAdapter.PhotoAdapter.NotifyItemChanged | app/src/main/java/com/oguzhanaslann/storagecamera/PhotoAdapter.kt:54 | a notification is appended to the log and nothing else changes |
| PhotoAdapter.PhotoAdapter.SetSelectedPhotos | app/src/main/java/com/oguzhanaslann/storagecamera/PhotoAdapter.kt:48-66 | the list shown is unchanged; the log grows by exactly the SELECTED notifications in selection order, then the DESELECTED ones in row order |
| PhotoAdapter.SelectedNotificationsSound | app/src/main/java/com/oguzhanaslann/storagecamera/PhotoAdapter.kt:50-56 | every SELECTED notification is at a valid row that is the first occurrence of a selected photo |
| PhotoAdapter.DeselectedNotificationsSound | app/src/main/java/com/oguzhanaslann/storagecamera/PhotoAdapter.kt:59-64 | every DESELECTED notification is at a row whose photo no entry selects |
| PhotoAdapter.DeselectedNotificationsComplete | app/src/main/java/com/oguzhanaslann/storagecamera/PhotoAdapter.kt:59-64 | every row whose photo is not selected is notified DESELECTED |
| PhotoAdapter.SelectedNotificationsAppend | app/src/main/java/com/oguzhanaslann/storagecamera/PhotoAdapter.kt:50-56 | the first loop handles entries independently: notifications for a concatenated selection are the concatenation |
| PhotoAdapter.SelectedAtFirstOccurrence | app/src/main/java/com/oguzhanaslann/storagecamera/PhotoAdapter.kt:50-56 | each selected photo present in the list is notified SELECTED at the index of its first occurrence |
| PhotoAdapter.AbsentSelectionIgnored | app/src/main/java/com/oguzhanaslann/storagecamera/PhotoAdapter.kt:52-55 | an entry whose photo the list does not show changes nothing: the notifications are those of the selection without it |
| PhotoAdapter.DeselectedExactlyOnce | app/src/main/java/com/oguzhanaslann/storagecamera/PhotoAdapter.kt:59-64 | a row whose photo is not selected (by photo, ignoring storage type) gets exactly one DESELECTED; a selected row gets none |
| PhotoAdapter.NotificationShape | app/src/main/java/com/oguzhanaslann/storagecamera/PhotoAdapter.kt:48-66 | each notification is at a valid row; it is SELECTED exactly when it comes from the first loop, and then the row is the first occurrence of a selected photo; otherwise it is DESELECTED and the row's photo is unselected |
| PhotoAdapter.NoPositionGetsBothPayloads | app/src/main/java/com/oguzhanaslann/storagecamera/PhotoAdapter.kt:52-54 | no row is notified both SELECTED and DESELECTED |
| PhotoAdapter.RepeatsAreNotNotified | app/src/main/java/com/oguzhanaslann/storagecamera/PhotoAdapter.kt:52-54 | a later duplicate of a selected photo in the list gets no notification at all |
| PhotoAdapter.SelectedBeforeDeselected | app/src/main/java/com/oguzhanaslann/storagecamera/PhotoAdapter.kt:48-66 | the only payloads are SELECTED and DESELECTED, and no SELECTED follows a DESELECTED |
| PhotoAdapter.PayloadsAtExact | app/src/main/java/com/oguzhanaslann/storagecamera/PhotoAdapter.kt:34 | the payloads a row receives are exactly those the log pairs with that row |
| PhotoAdapter.CheckIconReflectsSelection | app/src/main/java/com/oguzhanaslann/storagecamera/PhotoAdapter.kt:34-66 | after `setSelectedPhotos`, rebinding a row with its payloads hides the check icon on unselected rows and shows it on the first row of each selected photo; later duplicates of a selected photo get no payload, so this call leaves them as they were, and a later rebind of one is a full bind |
| Lists.IndexOf | app/src/main/java/com/oguzhanaslann/storagecamera/PhotoAdapter.kt:52 | `indexOf`: -1 exactly when absent; otherwise a position holding the element with no earlier one |
| Lists.RemoveAt | app/src/main/java/com/oguzhanaslann/storagecamera/MainViewModel.kt:93 | `removeAt`: one shorter; elements before the index stay, elements after shift down by one |
| MainActivity.PermissionButtonMatchesRequest | app/src/main/java/com/oguzhanaslann/storagecamera/MainViewModel.kt:23-26 | the combined flag `ShouldRequestPermission` (`!(write && read)`) is true exactly when the request list the activity builds from the same grants (MainActivity.kt:263-287) is non-empty |
| ViewModel.IndexOfFirst | app/src/main/java/com/oguzhanaslann/storagecamera/MainViewModel.kt:91 | `indexOfFirst { it.first == photo }`: -1 exactly when no entry holds the photo; otherwise the first entry holding it |
| ViewModel.ActivateOrIgnore | app/src/main/java/com/oguzhanaslann/storagecamera/MainViewModel.kt:66-71 | ends in delete mode with the selection untouched |
| ViewModel.Deactivate | app/src/main/java/com/oguzhanaslann/storagecamera/MainViewModel.kt:61-64 | from any state, ends with delete mode off and an empty selection |
| ViewModel.Select | app/src/main/java/com/oguzhanaslann/storagecamera/MainViewModel.kt:73-84 | delete mode never changes; with delete mode off or the photo already selected nothing changes; otherwise exactly `(photo, storageType)` is appended at the end and earlier entries keep their order |
| ViewModel.Toggle | app/src/main/java/com/oguzhanaslann/storagecamera/MainViewModel.kt:86-99 | with delete mode off nothing changes; in delete mode, if the photo is selected its first entry is removed and every other entry keeps its order, and otherwise `(photo, storageType)` is appended at the end |
| ViewModel.DeactivateIfEmpty | app/src/main/java/com/oguzhanaslann/storagecamera/MainViewModel.kt:101-109 | the selection never changes; delete mode stays on exactly when it was on and something is selected |
| ViewModel.DeleteEvent | app/src/main/java/com/oguzhanaslann/storagecamera/MainViewModel.kt:116-122 | an entry yields a delete request for its photo: the internal kind exactly for `Internal` entries, the scoped kind otherwise |
| ViewModel.DeleteBatchRouting | app/src/main/java/com/oguzhanaslann/storagecamera/MainViewModel.kt:111-129 | the batch has one delete request per entry, at the entry's position and routed by its storage type, followed by `InternalStorageUpdated` and `ScopeStorageUpdated` |
| ViewModel.DeleteEventsPointwise | app/src/main/java/com/oguzhanaslann/storagecamera/MainViewModel.kt:113-123 | the delete requests correspond one to one, in order, with the selected entries |
| ViewModel.DeleteRequestedIffSelected | app/src/main/java/com/oguzhanaslann/storagecamera/MainViewModel.kt:111-141 | a photo is asked to be deleted from a storage exactly when it is selected under that storage |
| ViewModel.ActivateIdempotent | app/src/main/java/com/oguzhanaslann/storagecamera/MainViewModel.kt:66-71 | activating twice equals activating once |
| ViewModel.SelectFirstWriteWins | app/src/main/java/com/oguzhanaslann/storagecamera/MainViewModel.kt:76-82 | selecting a photo under one storage and then another keeps exactly one entry, with the first storage type |
| ViewModel.ToggleTwiceRestores | app/src/main/java/com/oguzhanaslann/storagecamera/MainViewModel.kt:89-97 | starting from a selection without the photo, two identical toggles restore the selection exactly |
| ViewModel.ToggleTwiceMovesToEnd | app/src/main/java/com/oguzhanaslann/storagecamera/MainViewModel.kt:89-97 | starting from a selection with the photo, two identical toggles move its entry to the end under the given type; the list is restored exactly when that entry was already last with that type |
| ViewModel.ToggleTwiceRestoresMembership | app/src/main/java/com/oguzhanaslann/storagecamera/MainViewModel.kt:89-97 | after two identical toggles, every photo is selected exactly when it was before |
| ViewModel.RemovedIsGone | app/src/main/java/com/oguzhanaslann/storagecamera/MainViewModel.kt:91-93 | with unique photos, removing the first match leaves the photo unselected and the photos still unique |
| ViewModel.ToggleFlipsMembership | app/src/main/java/com/oguzhanaslann/storagecamera/MainViewModel.kt:86-99 | in delete mode, a toggle flips whether the toggled photo is selected and leaves every other photo's membership alone |
| ViewModel.SelectKeepsInvariant | app/src/main/java/com/oguzhanaslann/storagecamera/MainViewModel.kt:73-84 | selecting keeps photos unique and the selection empty outside delete mode |
| ViewModel.ToggleKeepsInvariant | app/src/main/java/com/oguzhanaslann/storagecamera/MainViewModel.kt:86-99 | toggling keeps photos unique and the selection empty outside delete mode |
| ViewModel.StepKeepsInvariant | app/src/main/java/com/oguzhanaslann/storagecamera/MainViewModel.kt:57-129 | every selection operation keeps the invariant |
| ViewModel.ReachableStatesKeepInvariant | app/src/main/java/com/oguzhanaslann/storagecamera/MainViewModel.kt:28-129 | any sequence of operations from a state satisfying the invariant ends in one satisfying it |
| ViewModel.InitialInvariant | app/src/main/java/com/oguzhanaslann/storagecamera/MainViewModel.kt:28-34 | the initial state (delete mode off, nothing selected) and every state reachable from it have unique photos and select nothing outside delete mode |
| ViewModel.MainViewModel.constructor | app/src/main/java/com/oguzhanaslann/storagecamera/MainViewModel.kt:13-34 | starts with delete mode off, nothing selected, no grant set and no event emitted |
| ViewModel.MainViewModel.ShouldRequestPermissionNow | app/src/main/java/com/oguzhanaslann/storagecamera/MainViewModel.kt:17-26 | the combined flag exists only once both grants have been set, and is then the request rule applied to them |
| ViewModel.MainViewModel.SendEvent | app/src/main/java/com/oguzhanaslann/storagecamera/MainViewModel.kt:36-40 | the event is appended to the emitted events |
| ViewModel.MainViewModel.SetPermissionsGranted | app/src/main/java/com/oguzhanaslann/storagecamera/MainViewModel.kt:42-55 | both grants are stored, both update events are sent in order, and the combined flag becomes "not both granted" |
| ViewModel.MainViewModel.ActivateDeleteMode | app/src/main/java/com/oguzhanaslann/storagecamera/MainViewModel.kt:57-59 | delete mode is on and nothing else changes |
| ViewModel.MainViewModel.DeactivateDeleteMode | app/src/main/java/com/oguzhanaslann/storagecamera/MainViewModel.kt:61-64 | the state becomes `Deactivate` of the old state, which satisfies the invariant |
| ViewModel.MainViewModel.ActivateDeleteModeOrIgnore | app/src/main/java/com/oguzhanaslann/storagecamera/MainViewModel.kt:66-71 | the state becomes `ActivateOrIgnore` of the old state, and the invariant is kept |
| ViewModel.MainViewModel.SelectPhoto | app/src/main/java/com/oguzhanaslann/storagecamera/MainViewModel.kt:73-84 | the state becomes `Select` of the old state, and the invariant is kept |
| ViewModel.MainViewModel.TogglePhotoSelection | app/src/main/java/com/oguzhanaslann/storagecamera/MainViewModel.kt:86-99 | the state becomes `Toggle` of the old state, and the invariant is kept |
| ViewModel.MainViewModel.DeactivateDeleteModeIfNoPhotoLeft | app/src/main/java/com/oguzhanaslann/storagecamera/MainViewModel.kt:101-109 | the state becomes `DeactivateIfEmpty` of the old state, and the invariant is kept |
| ViewModel.MainViewModel.DeleteInternalStoragePhoto | app/src/main/java/com/oguzhanaslann/storagecamera/MainViewModel.kt:131-135 | emits an internal delete request for the photo |
| ViewModel.MainViewModel.DeleteScopedStoragePhoto | app/src/main/java/com/oguzhanaslann/storagecamera/MainViewModel.kt:137-141 | emits a scoped delete request for the photo |
| ViewModel.MainViewModel.DeleteSelectedPhotos | app/src/main/java/com/oguzhanaslann/storagecamera/MainViewModel.kt:111-129 | the emitted events grow by the delete batch of the selection held at the start, and the state ends with delete mode off and nothing selected |
| MainActivity.CreateFragment | app/src/main/java/com/oguzhanaslann/storagecamera/MainActivity.kt:50-56 | position 1 shows scoped storage and every other position shows internal storage |
| MainActivity.GetItemCount | app/src/main/java/com/oguzhanaslann/storagecamera/MainActivity.kt:46-48 | the page count is exactly enough for one page per storage type: no two pages show the same storage, and together they show both |
| MainActivity.TabTitle | app/src/main/java/com/oguzhanaslann/storagecamera/MainActivity.kt:152-157 | "Internal" exactly for position 0, "Scoped" exactly for 1, "Unknown" for every other position |
| MainActivity.PagesAndTabsAgree | app/src/main/java/com/oguzhanaslann/storagecamera/MainActivity.kt:45-157 | on each of the two pages the tab is titled after the storage it shows, and the two pages show different storages |
| MainActivity.Take | app/src/main/java/com/oguzhanaslann/storagecamera/MainActivity.kt:73 | Kotlin `take(n)`: the prefix of length `min(n, length)` |
| MainActivity.ImageName | app/src/main/java/com/oguzhanaslann/storagecamera/MainActivity.kt:91 | the base name is `image_` followed by the first (at most) five characters of the UUID |
| MainActivity.InternalFileName | app/src/main/java/com/oguzhanaslann/storagecamera/MainActivity.kt:73 | the private file name is the base name followed by `.jpg` |
| MainActivity.ImageNamesDistinguishPrefixes | app/src/main/java/com/oguzhanaslann/storagecamera/MainActivity.kt:73-91 | two captures get the same name exactly when their UUIDs share the first five characters |
| MainActivity.InternalFileNamesDistinguishNames | app/src/main/java/com/oguzhanaslann/storagecamera/MainActivity.kt:73 | two private file names collide exactly when their base names do |
| MainActivity.Sdk29AndUp | app/src/main/java/com/oguzhanaslann/storagecamera/MainActivity.kt:313-319 | the block's result exactly on SDK level 29 (Q) or later, nothing below |
| MainActivity.ImageCollectionFor | app/src/main/java/com/oguzhanaslann/storagecamera/MainActivity.kt:103-105 | the primary external volume exactly from SDK level 29 on, the legacy external content URI below |
| MainActivity.SavePhotoToExternalStorage | app/src/main/java/com/oguzhanaslann/storagecamera/MainActivity.kt:102-112 | the inserted record has display name `<name>.jpg`, MIME type `image/jpeg`, and the SDK-dependent collection |
| MainActivity.SavedNamesAgree | app/src/main/java/com/oguzhanaslann/storagecamera/MainActivity.kt:88-109 | a scoped capture's display name equals the file name an internal capture with the same UUID would use |
| MainActivity.SaveBitmapToLocalStorage | app/src/main/java/com/oguzhanaslann/storagecamera/MainActivity.kt:68-82 | with a bitmap it writes the named private file first; with or without one it ends by sending `InternalStorageUpdated` |
| MainActivity.SaveBitmapToScopedStorage | app/src/main/java/com/oguzhanaslann/storagecamera/MainActivity.kt:88-96 | without a bitmap nothing happens; with one it inserts the record and then sends `ScopeStorageUpdated`, whatever the insert returned |
| MainActivity.TakePicturePreview | app/src/main/java/com/oguzhanaslann/storagecamera/MainActivity.kt:60-66 | a capture on a page outside the pager is dropped; on a page it goes to the save for the storage that page shows |
| MainActivity.CaptureRefreshesItsPage | app/src/main/java/com/oguzhanaslann/storagecamera/MainActivity.kt:60-66 | a capture on a page other than 0 or 1 is dropped; one on a page ends by refreshing that page's storage and never the other's; a scoped capture without a bitmap does nothing |
| MainActivity.CaptureStoresToItsPage | app/src/main/java/com/oguzhanaslann/storagecamera/MainActivity.kt:60-66 | a capture on the internal page writes a private file; one on the scoped page inserts a media record |
| MainActivity.WriteRequestedOnlyBeforeQ | app/src/main/java/com/oguzhanaslann/storagecamera/MainActivity.kt:253-281 | under the write rule `WritePermissionGranted` (held, or SDK level 29 and later), write access is requested exactly below SDK level 29 when it is not held; from Q on it is never requested |
| MainActivity.PermissionsToRequest | app/src/main/java/com/oguzhanaslann/storagecamera/MainActivity.kt:278-284 | WRITE is requested exactly when write is not granted and READ exactly when read is not; nothing else is requested, each at most once, WRITE first |
| MainActivity.RequestPermissionsIfNeeded | app/src/main/java/com/oguzhanaslann/storagecamera/MainActivity.kt:263-288 | the list built step by step is the request list for the read grant and the SDK-adjusted write grant, and it is launched exactly when non-empty |
| MainActivity.UpdatePermissionsStatus | app/src/main/java/com/oguzhanaslann/storagecamera/MainActivity.kt:248-261 | the view model receives the read grant and the SDK-adjusted write grant, and sends both updates; the permission flag is then set, and it is true exactly when a request would ask for something |
| MainActivity.VisibilityFor | app/src/main/java/com/oguzhanaslann/storagecamera/MainActivity.kt:323-324 | the setter stores `INVISIBLE` exactly for true and `VISIBLE` exactly for false |
| MainActivity.View.IsHidden | app/src/main/java/com/oguzhanaslann/storagecamera/MainActivity.kt:322 | a view reads as hidden exactly when its visibility is the one the setter stores for hidden; a `GONE` view reads as not hidden |
| MainActivity.View.SetHidden | app/src/main/java/com/oguzhanaslann/storagecamera/MainActivity.kt:321-325 | after setting `isHidden` to a value, reading it back gives that value |

## Left out

- Camera capture and bitmap encoding are not modelled. This covers JPEG compression, `openFileOutput`, `contentResolver.insert`/`openOutputStream` and their `IOException` paths. They are foreign I/O. The camera result is a `hasBitmap` flag, and the UUID string and SDK level are parameters.
- MainActivity.SavePhotoToExternalStorage: models only the record it inserts. Its boolean result depends on the I/O outcome and is ignored by its only caller. The bitmap's width and height in the record are left out, since the bitmap itself is not modelled.
- Coroutine and flow delivery are not modelled. This covers `viewModelScope.launch`, the `MutableSharedFlow` channel, `flowWithLifecycle` and the LiveData `asFlow`/`combine` plumbing. The `events` log records what `deleteSelectedPhotos` and `sendEvent` emit, in program order. Interleaving of the separately launched emissions is not modelled. The same goes for whether `deactivateDeleteMode` runs before they are delivered.
- ViewModel.MainViewModel.ShouldRequestPermissionNow: models only the value `combine` holds once both grants are set. It does not model the flow's repeated emissions.
- The permission button's visibility is not modelled, only the flag that drives it. The flag's collector shows the button exactly when the flag is true (`MainActivity.kt:202-205`), but the delete-mode collector also sets it, hiding it in delete mode and showing it whenever delete mode emits false, whatever the grants (`MainActivity.kt:211-215`).
- The ActionMode, toolbar and FAB wiring is UI chrome and is not modelled. This covers `subscribeObservers`, the action-mode callback and the `onResume` refresh. Coil image loading, click listeners and the settings intent are left out for the same reason.
- Actual deletion, and any consent flow for it, is not modelled. The code only emits delete requests, and no collector in the code handles them (`PhotoFragment.kt:89-97`).
- `PhotoFragment.kt` is not part of this model. It consists of content-provider queries, directory listing and a content observer. It also names a third storage type and event that `StorageType.kt` and `MainViewModel.kt` do not define.
- PhotoAdapter.PhotoAdapter.constructor: the two click callbacks the adapter takes are not modelled; the pages pass none, so both are no-ops.
- RecyclerView's diffing in `submitList` is not modelled. Only the two DiffUtil callbacks are. Payload accumulation per row is modelled as the in-order payloads `notifyItemChanged` attached to that row (`PayloadsAt`).
