// What the importer sees of the host vault: the listed files and folders and
// a rename that refuses an occupied destination. Reading, writing and
// listing are foreign calls; their results are inputs of the model.

module Vault {
  import opened Strings

  /** One entry of `getAllLoadedFiles()`: its path, name, parent folder
      (absent for the root), extension, kind and, for a file, its text. */
  datatype Item = Item(
    path: String,
    name: String,
    parent: Option<String>,
    extension: String,
    isFolder: bool,
    text: String)

  /** `item.parent?.path ?? ''` */
  function ParentPath(item: Item): String {
    match item.parent
    case Some(p) => p
    case None => ""
  }

  /** `app.vault.rename(from, to)` on the set of existing paths: it fails,
      changing nothing, when the destination already exists. */
  function Rename(paths: set<String>, from: String, to: String): (r: (bool, set<String>))
    ensures r.0 <==> to !in paths
    ensures r.0 ==> to in r.1 && (from != to ==> from !in r.1) && r.1 <= paths + {to}
    ensures r.0 ==> forall p :: p in paths && p != from ==> p in r.1
    ensures !r.0 ==> r.1 == paths
  {
    if to in paths then (false, paths) else (true, paths - {from} + {to})
  }
}
