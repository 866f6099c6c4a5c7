/**
 * cms/FileReader.php: reading an article file and listing the article
 * directory. The filesystem is the map `disk` from paths to file contents,
 * and the listing scandir returns is a parameter.
 */
module CmsFileReader {
  import opened Php

  /** A FileReader object; it has no state, only an identity that may be null. */
  class FileReader {
    constructor ()
    {
    }
  }

  /** Fetch: file_get_contents gives the file's contents, or false when it cannot be read. */
  function Fetch(disk: map<string, string>, path: string): (v: PhpValue)
    ensures path in disk ==> v == Str(disk[path])
    ensures path !in disk ==> v == False
  {
    if path in disk then Str(disk[path]) else False
  }

  /**
   * filterFilenames: `$item == "." || $item == ".."`. Neither literal is a
   * numeric string, so the loose comparison is string equality: only the
   * two directory entries are dropped, every other name is kept.
   */
  function FilterFilenames(item: string): (keep: bool)
    ensures !keep <==> item in {".", ".."}
  {
    if item == "." || item == ".." then false else true
  }

  /** The two entries are rejected and every other name, dot-files included, is kept. */
  lemma FilterFilenamesKeepsAllButDirectoryEntries(item: string)
    ensures !FilterFilenames(".") && !FilterFilenames("..")
    ensures item != "." && item != ".." ==> FilterFilenames(item)
  {
  }

  /** An element of the array array_filter returns: array_filter keeps each element's key. */
  datatype Entry = Entry(key: nat, name: string)

  /**
   * GetFilenames: array_filter over the scandir listing. The kept entries
   * are, in listing order and under their listing keys, exactly the names
   * filterFilenames accepts; "." and ".." are never among them.
   */
  function GetFilenames(listing: seq<string>): (r: seq<Entry>)
    ensures |r| <= |listing|
    ensures forall j :: 0 <= j < |r| ==> r[j].key < |listing| && listing[r[j].key] == r[j].name
    ensures forall j :: 0 <= j < |r| ==> r[j].name != "." && r[j].name != ".."
    ensures forall j, k :: 0 <= j < k < |r| ==> r[j].key < r[k].key
    ensures forall i :: 0 <= i < |listing| && FilterFilenames(listing[i]) ==> Entry(i, listing[i]) in r
  {
    if |listing| == 0 then []
    else
      var last := |listing| - 1;
      var front := GetFilenames(listing[..last]);
      var r := if FilterFilenames(listing[last]) then front + [Entry(last, listing[last])] else front;
      assert forall i :: 0 <= i < last ==> listing[..last][i] == listing[i];
      assert forall j :: 0 <= j < |front| ==> r[j] == front[j];
      r
  }
}
