/** The two storage areas a photo can live in. */
module StorageTypes {

  /** App-private internal storage, or the shared media index reached through scoped storage. */
  datatype StorageType = Internal | Scoped
}
