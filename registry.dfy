/**
 * The algorithm registry and the default-algorithm heuristic
 * (src/algorithms.c). The registry is a static table of descriptors; a
 * lookup walks it until an entry's identifier equals the one asked for.
 */
module Registry {
  import opened Types

  /** The search routine a descriptor points at. */
  datatype Entry = AhoCorasickSearch | BoyerMooreSearch | UkkonenSearch | WuManberSearch

  /** `struct algorithm`: identifier, display name, capability flags and entry point. */
  datatype Algorithm = Algorithm(id: string, name: string, approximate: bool, parallel: bool, search: Entry)

  /** The table `algorithms[]`, without its NULL terminator. */
  const Table: seq<Algorithm> := [
    Algorithm("ac", "Aho-Corasick (1975)", false, true, AhoCorasickSearch),
    Algorithm("bm", "Boyer-Moore (1977)", false, false, BoyerMooreSearch),
    Algorithm("uk", "Ukkonen (1985)", true, false, UkkonenSearch),
    Algorithm("wm", "Wu-Manber (1992)", true, false, WuManberSearch)
  ]

  /** The identifier appears in the table. */
  predicate Known(id: string) {
    exists e :: 0 <= e < |Table| && Table[e].id == id
  }

  /**
   * The linear search of `get_algorithm` from table index `from` on: the first
   * entry whose identifier equals `id`, or `None` (NULL) past the end.
   */
  function LookupFrom(id: string, from: nat): (r: Option<Algorithm>)
    requires from <= |Table|
    ensures r.Some? ==> r.value.id == id && r.value in Table[from..]
    ensures r.None? <==> forall e :: from <= e < |Table| ==> Table[e].id != id
    decreases |Table| - from
  {
    if from == |Table| then None
    else if Table[from].id == id then Some(Table[from])
    else LookupFrom(id, from + 1)
  }

  /** `get_algorithm(id)`. */
  function GetAlgorithm(id: string): (r: Option<Algorithm>)
    ensures r.Some? ==> r.value.id == id && r.value in Table
    ensures r.None? <==> !Known(id)
  {
    LookupFrom(id, 0)
  }

  /** The identifiers of the table are pairwise distinct. */
  lemma IdsDistinct()
    ensures forall a, b :: 0 <= a < b < |Table| ==> Table[a].id != Table[b].id
  {
  }

  /** The only identifiers are "ac", "bm", "uk" and "wm". */
  lemma KnownIds(id: string)
    ensures Known(id) <==> id in {"ac", "bm", "uk", "wm"}
  {
    if id == "ac" { assert Table[0].id == id; }
    if id == "bm" { assert Table[1].id == id; }
    if id == "uk" { assert Table[2].id == id; }
    if id == "wm" { assert Table[3].id == id; }
  }

  /** Looking up an entry's own identifier finds that entry. */
  lemma GetAlgorithmOfEntry(e: nat)
    requires e < |Table|
    ensures GetAlgorithm(Table[e].id) == Some(Table[e])
  {
    IdsDistinct();
    var r := GetAlgorithm(Table[e].id);
    assert r.Some?;
    var f :| 0 <= f < |Table| && Table[f] == r.value;
  }

  /** Only "uk" and "wm" are approximate, and only "ac" is parallel. */
  lemma Capabilities(e: nat)
    requires e < |Table|
    ensures Table[e].approximate <==> Table[e].id in {"uk", "wm"}
    ensures Table[e].parallel <==> Table[e].id == "ac"
  {
  }

  /**
   * `choose_algorithm`: Wu-Manber when errors are allowed, else Aho-Corasick
   * for several patterns and Boyer-Moore for one. The lookup never fails.
   */
  function ChooseAlgorithm(maxEdit: nat, numPatterns: nat): (r: Option<Algorithm>)
    ensures r.Some? && r.value in Table
    ensures maxEdit > 0 ==> r.value.id == "wm"
    ensures maxEdit == 0 && numPatterns > 1 ==> r.value.id == "ac"
    ensures maxEdit == 0 && numPatterns <= 1 ==> r.value.id == "bm"
    ensures r.value.approximate <==> maxEdit > 0
    ensures r.value.parallel <==> maxEdit == 0 && numPatterns > 1
  {
    KnownIds("wm");
    KnownIds("ac");
    KnownIds("bm");
    GetAlgorithm(if maxEdit > 0 then "wm" else if numPatterns > 1 then "ac" else "bm")
  }
}
