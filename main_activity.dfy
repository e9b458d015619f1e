/**
 * The decisions the main screen makes on its own: which storage each pager page
 * shows and how its tab is titled, where a captured picture goes and under what
 * name, which storage permissions count as granted and which are requested, the
 * `sdk29AndUp` guard and the `isHidden` view property. Platform calls become
 * parameters (the permission checks, the SDK level, the random UUID) or effects
 * in a returned list (file writes, media-store inserts, events sent).
 */
module MainActivity {
  import opened Wrappers
  import opened StorageTypes
  import opened ViewModel

  // ---------------------------------------------------------------- pager and tabs

  /** `getItemCount`: as many pages as storage types, each storage on exactly one of them. */
  function GetItemCount(): (r: nat)
    ensures forall p, q :: 0 <= p < q < r ==> CreateFragment(p) != CreateFragment(q)
    ensures (set p | 0 <= p < r :: CreateFragment(p)) == {Internal, Scoped}
  {
    assert CreateFragment(0) == Internal && CreateFragment(1) == Scoped;
    2
  }

  /** `createFragment`: the storage the page at `position` lists. */
  function CreateFragment(position: int): (r: StorageType)
    ensures r == Scoped <==> position == 1
    ensures r == Internal <==> position != 1
  {
    match position
    case 0 => Internal
    case 1 => Scoped
    case _ => Internal
  }

  /** The name a storage type is shown under. */
  function StorageTypeName(t: StorageType): (r: string)
  {
    match t
    case Internal => "Internal"
    case Scoped => "Scoped"
  }

  /** The tab title for the page at `position`. */
  function TabTitle(position: int): (r: string)
    ensures r == "Internal" <==> position == 0
    ensures r == "Scoped" <==> position == 1
    ensures r == "Unknown" <==> position != 0 && position != 1
  {
    match position
    case 0 => "Internal"
    case 1 => "Scoped"
    case _ => "Unknown"
  }

  /** Each page shows its own storage, the two pages show different storages, and each tab is titled after its page's storage. */
  lemma PagesAndTabsAgree(position: int)
    requires 0 <= position < GetItemCount()
    ensures TabTitle(position) == StorageTypeName(CreateFragment(position))
    ensures CreateFragment(position) != CreateFragment(GetItemCount() - 1 - position)
  {
  }

  // ---------------------------------------------------------------- names

  /** Kotlin's `take(n)`: the first `n` characters, or the whole string if it is shorter. */
  function Take(s: string, n: nat): (r: string)
    ensures |r| == if |s| < n then |s| else n
    ensures r == s[..|r|]
  {
    if |s| < n then s else s[..n]
  }

  /** The base name of a captured picture: `image_` followed by the first five characters of the UUID. */
  function ImageName(uuid: string): (r: string)
    ensures 6 <= |r| <= 11 && r[..6] == "image_" && r[6..] == Take(uuid, 5)
  {
    "image_" + Take(uuid, 5)
  }

  /** The private file a capture on the internal page is written to. */
  function InternalFileName(uuid: string): (r: string)
    ensures 10 <= |r| <= 15 && r[..|r| - 4] == ImageName(uuid) && r[|r| - 4..] == ".jpg"
  {
    ImageName(uuid) + ".jpg"
  }

  /** Two captures get the same base name exactly when their UUIDs start alike. */
  lemma ImageNamesDistinguishPrefixes(u1: string, u2: string)
    ensures ImageName(u1) == ImageName(u2) <==> Take(u1, 5) == Take(u2, 5)
  {
    if ImageName(u1) == ImageName(u2) {
      assert Take(u1, 5) == ImageName(u1)[6..];
    }
  }

  /** Two internal files collide exactly when the base names do. */
  lemma InternalFileNamesDistinguishNames(u1: string, u2: string)
    ensures InternalFileName(u1) == InternalFileName(u2) <==> ImageName(u1) == ImageName(u2)
  {
    if InternalFileName(u1) == InternalFileName(u2) {
      var f := InternalFileName(u1);
      assert ImageName(u1) == f[..|f| - 4];
    }
  }

  // ---------------------------------------------------------------- SDK guard and media store

  /** `Build.VERSION_CODES.Q`. */
  const Q: int := 29

  /** `sdk29AndUp`: the block's result on SDK level `Q` or later, nothing below. */
  function Sdk29AndUp<T>(sdk: int, block: () -> T): (r: Option<T>)
    ensures r.Some? <==> sdk >= Q
    ensures r.Some? ==> r.value == block()
  {
    if sdk >= Q then Some(block()) else None
  }

  /** The two media-store image collections a picture can be inserted into. */
  datatype ImageCollection = VolumeExternalPrimary | ExternalContentUri

  /** The collection used on SDK level `sdk`: the primary external volume from `Q` on, the legacy external URI before. */
  function ImageCollectionFor(sdk: int): (r: ImageCollection)
    ensures r == VolumeExternalPrimary <==> sdk >= Q
  {
    Sdk29AndUp(sdk, () => VolumeExternalPrimary).GetOr(ExternalContentUri)
  }

  const JpegMimeType: string := "image/jpeg"

  /** What saving a picture does, apart from encoding the bitmap. */
  datatype CaptureEffect =
    | WritePrivateFile(fileName: string)
    | InsertMediaRecord(collection: ImageCollection, displayName: string, mimeType: string)
    | Send(event: StorageEvent)

  /** `savePhotoToExternalStorage`: the media-store record it inserts for `displayName`. */
  function SavePhotoToExternalStorage(displayName: string, sdk: int): (r: CaptureEffect)
    ensures r.InsertMediaRecord?
    ensures r.displayName == displayName + ".jpg" && r.mimeType == JpegMimeType
    ensures r.collection == VolumeExternalPrimary <==> sdk >= Q
  {
    InsertMediaRecord(ImageCollectionFor(sdk), displayName + ".jpg", JpegMimeType)
  }

  /** The record a capture on the scoped page inserts carries the same name the internal page would write. */
  lemma SavedNamesAgree(uuid: string, sdk: int)
    ensures SavePhotoToExternalStorage(ImageName(uuid), sdk).displayName == InternalFileName(uuid)
  {
  }

  // ---------------------------------------------------------------- capture routing

  /** `saveBitmapToLocalStorage`: write the file if there is a bitmap, then refresh the internal page either way. */
  function SaveBitmapToLocalStorage(hasBitmap: bool, uuid: string): (r: seq<CaptureEffect>)
    ensures |r| == if hasBitmap then 2 else 1
    ensures r[|r| - 1] == Send(InternalStorageUpdated)
    ensures hasBitmap ==> r[0] == WritePrivateFile(InternalFileName(uuid))
  {
    (if hasBitmap then [WritePrivateFile(InternalFileName(uuid))] else []) + [Send(InternalStorageUpdated)]
  }

  /** `saveBitmapToScopedStorage`: with a bitmap, insert the record and refresh the scoped page whatever the insert returns; without one, nothing. */
  function SaveBitmapToScopedStorage(hasBitmap: bool, uuid: string, sdk: int): (r: seq<CaptureEffect>)
    ensures !hasBitmap <==> r == []
    ensures hasBitmap ==> r == [SavePhotoToExternalStorage(ImageName(uuid), sdk), Send(ScopeStorageUpdated)]
  {
    if hasBitmap then [SavePhotoToExternalStorage(ImageName(uuid), sdk), Send(ScopeStorageUpdated)] else []
  }

  /** The update event that refreshes the page listing storage `t`. */
  function UpdatedEvent(t: StorageType): (r: StorageEvent)
  {
    match t
    case Internal => InternalStorageUpdated
    case Scoped => ScopeStorageUpdated
  }

  /** The `takePicturePreview` result handler: route the picture by the page being shown. */
  function TakePicturePreview(currentItem: int, hasBitmap: bool, uuid: string, sdk: int): (r: seq<CaptureEffect>)
    ensures !(0 <= currentItem < GetItemCount()) ==> r == []
    ensures 0 <= currentItem < GetItemCount() && CreateFragment(currentItem) == Internal ==>
              r == SaveBitmapToLocalStorage(hasBitmap, uuid)
    ensures 0 <= currentItem < GetItemCount() && CreateFragment(currentItem) == Scoped ==>
              r == SaveBitmapToScopedStorage(hasBitmap, uuid, sdk)
  {
    match currentItem
    case 0 => SaveBitmapToLocalStorage(hasBitmap, uuid)
    case 1 => SaveBitmapToScopedStorage(hasBitmap, uuid, sdk)
    case _ => []
  }

  /**
   * A picture taken on a page is saved to that page's storage and ends by
   * refreshing that page and no other; a capture on any other page is dropped.
   */
  lemma CaptureRefreshesItsPage(currentItem: int, hasBitmap: bool, uuid: string, sdk: int)
    ensures !(0 <= currentItem < GetItemCount()) ==> TakePicturePreview(currentItem, hasBitmap, uuid, sdk) == []
    ensures 0 <= currentItem < GetItemCount() && (hasBitmap || currentItem == 0) ==>
              var r := TakePicturePreview(currentItem, hasBitmap, uuid, sdk);
              r != [] && r[|r| - 1] == Send(UpdatedEvent(CreateFragment(currentItem)))
              && Send(UpdatedEvent(CreateFragment(GetItemCount() - 1 - currentItem))) !in r
    ensures currentItem == 1 && !hasBitmap ==> TakePicturePreview(currentItem, hasBitmap, uuid, sdk) == []
  {
  }

  /** Where a picture is stored depends only on the page: internal captures write a private file, scoped ones insert a media record. */
  lemma CaptureStoresToItsPage(currentItem: int, uuid: string, sdk: int)
    requires 0 <= currentItem < GetItemCount()
    ensures CreateFragment(currentItem) == Internal ==>
              TakePicturePreview(currentItem, true, uuid, sdk)[0] == WritePrivateFile(InternalFileName(uuid))
    ensures CreateFragment(currentItem) == Scoped ==>
              TakePicturePreview(currentItem, true, uuid, sdk)[0].InsertMediaRecord?
  {
  }

  // ---------------------------------------------------------------- permissions

  const WRITE_EXTERNAL_STORAGE: string := "android.permission.WRITE_EXTERNAL_STORAGE"
  const READ_EXTERNAL_STORAGE: string := "android.permission.READ_EXTERNAL_STORAGE"

  /** Write access counts as granted when held or on SDK level `Q` and later, where scoped storage needs none. */
  function WritePermissionGranted(hasWritePermission: bool, sdk: int): (r: bool)
    ensures r <==> hasWritePermission || sdk >= Q
  {
    hasWritePermission || sdk >= Q
  }

  /** The permissions asked for: write if not granted, then read if not held. */
  function PermissionsToRequest(readGranted: bool, writeGranted: bool): (r: seq<string>)
    ensures WRITE_EXTERNAL_STORAGE in r <==> !writeGranted
    ensures READ_EXTERNAL_STORAGE in r <==> !readGranted
    ensures forall p :: p in r ==> p == WRITE_EXTERNAL_STORAGE || p == READ_EXTERNAL_STORAGE
    ensures |r| == (if writeGranted then 0 else 1) + (if readGranted then 0 else 1)
    ensures !writeGranted ==> r[0] == WRITE_EXTERNAL_STORAGE
  {
    (if !writeGranted then [WRITE_EXTERNAL_STORAGE] else []) + (if !readGranted then [READ_EXTERNAL_STORAGE] else [])
  }

  /** `requestPermissionsIfNeeded`: build the list step by step and launch the request only if it is non-empty. */
  method RequestPermissionsIfNeeded(hasReadPermission: bool, hasWritePermission: bool, sdk: int)
    returns (permissionsToRequest: seq<string>, launched: bool)
    ensures permissionsToRequest == PermissionsToRequest(hasReadPermission, WritePermissionGranted(hasWritePermission, sdk))
    ensures launched <==> permissionsToRequest != []
  {
    var minSdk29 := sdk >= Q;
    var readPermissionGranted := hasReadPermission;
    var writePermissionGranted := hasWritePermission || minSdk29;
    permissionsToRequest := [];
    if !writePermissionGranted {
      permissionsToRequest := permissionsToRequest + [WRITE_EXTERNAL_STORAGE];
    }
    if !readPermissionGranted {
      permissionsToRequest := permissionsToRequest + [READ_EXTERNAL_STORAGE];
    }
    launched := |permissionsToRequest| > 0;
  }

  /** `updatePermissionsStatus`: hand the view model the read grant and the write grant under the SDK rule. */
  method UpdatePermissionsStatus(vm: MainViewModel, hasReadPermission: bool, hasWritePermission: bool, sdk: int)
    modifies vm`readGranted, vm`writeGranted, vm`events
    ensures vm.readGranted == Some(hasReadPermission)
    ensures vm.writeGranted == Some(WritePermissionGranted(hasWritePermission, sdk))
    ensures vm.events == old(vm.events) + [InternalStorageUpdated, ScopeStorageUpdated]
    ensures vm.ShouldRequestPermissionNow().Some?
    ensures vm.ShouldRequestPermissionNow().value
            <==> PermissionsToRequest(hasReadPermission, WritePermissionGranted(hasWritePermission, sdk)) != []
  {
    var minSdk29 := sdk >= Q;
    vm.SetPermissionsGranted(hasReadPermission, hasWritePermission || minSdk29);
    PermissionButtonMatchesRequest(hasReadPermission, hasWritePermission, sdk);
  }

  /** The combined flag is true exactly when pressing the permission button would ask for something. */
  lemma PermissionButtonMatchesRequest(hasReadPermission: bool, hasWritePermission: bool, sdk: int)
    ensures ShouldRequestPermission(WritePermissionGranted(hasWritePermission, sdk), hasReadPermission)
            <==> PermissionsToRequest(hasReadPermission, WritePermissionGranted(hasWritePermission, sdk)) != []
  {
    var w := WritePermissionGranted(hasWritePermission, sdk);
    var r := PermissionsToRequest(hasReadPermission, w);
    if !w {
      assert WRITE_EXTERNAL_STORAGE in r;
    } else if !hasReadPermission {
      assert READ_EXTERNAL_STORAGE in r;
    }
  }

  /** From SDK level `Q` on the app never asks for write access; below it, it asks exactly when write is not held. */
  lemma WriteRequestedOnlyBeforeQ(hasReadPermission: bool, hasWritePermission: bool, sdk: int)
    ensures WRITE_EXTERNAL_STORAGE in PermissionsToRequest(hasReadPermission, WritePermissionGranted(hasWritePermission, sdk))
            <==> sdk < Q && !hasWritePermission
  {
  }

  // ---------------------------------------------------------------- View.isHidden

  /** `View.VISIBLE`, `View.INVISIBLE` and `View.GONE`. */
  const VISIBLE: int := 0
  const INVISIBLE: int := 4
  const GONE: int := 8

  /** The visibility the `isHidden` setter stores. */
  function VisibilityFor(hidden: bool): (r: int)
    ensures r == INVISIBLE <==> hidden
    ensures r == VISIBLE <==> !hidden
  {
    if hidden then INVISIBLE else VISIBLE
  }

  /** A view, reduced to its visibility. */
  class View {
    var visibility: int

    constructor (visibility: int)
      ensures this.visibility == visibility
    {
      this.visibility := visibility;
    }

    /** The `isHidden` getter: only `INVISIBLE` counts as hidden, so a `GONE` view reads as not hidden. */
    predicate IsHidden(): (r: bool)
      reads this
      ensures r <==> visibility == VisibilityFor(true)
      ensures visibility == GONE ==> !r
    {
      visibility == INVISIBLE
    }

    /** The `isHidden` setter: reading back gives the value just set. */
    method SetHidden(value: bool)
      modifies this
      ensures visibility == VisibilityFor(value)
      ensures IsHidden() == value
    {
      visibility := VisibilityFor(value);
    }
  }
}
