/** The filter table: AstroBin's numeric ids for the filter names a capture
    program writes into the FILTER keyword. */
module Filters {

  /** What `FILTER_MAP.get(...)` yields: a known AstroBin id or the raw name. */
  datatype FilterId = Id(n: int) | Raw(name: string)

  /** `FILTER_MAP`: one-letter filter names and their AstroBin ids. */
  const FilterMap: map<string, int> := map[
    "R" := 28943,
    "L" := 25576,
    "G" := 28944,
    "B" := 28945,
    "H" := 4410,
    "O" := 4415,
    "S" := 4420
  ]

  /** `FILTER_MAP.get(raw, FILTER_MAP.get(raw[0], raw))`: the exact name first,
      then its first letter, else the name itself. Indexing `raw[0]` needs a
      non-empty name; the caller substitutes `Unknown` for an empty one. */
  function NormalizeFilter(raw: string): (id: FilterId)
    requires raw != []
    ensures id.Id? ==> id.n in FilterMap.Values
    ensures id.Raw? ==> id.name == raw
  {
    if raw in FilterMap then Id(FilterMap[raw])
    else if [raw[0]] in FilterMap then Id(FilterMap[[raw[0]]])
    else Raw(raw)
  }

  /** Every key of the table is a single letter. */
  lemma KeysAreLetters(k: string)
    requires k in FilterMap
    ensures |k| == 1 && 'A' <= k[0] <= 'Z'
  {
  }

  /** Because every key is one letter, the exact-name lookup never decides
      anything the first-letter lookup would not: the id depends on the first
      character alone, and a name is kept raw exactly when its first character
      is not in the table. */
  lemma {:induction false} FirstLetterDecides(raw: string)
    requires raw != []
    ensures NormalizeFilter(raw) ==
              if [raw[0]] in FilterMap then Id(FilterMap[[raw[0]]]) else Raw(raw)
  {
    if raw in FilterMap {
      KeysAreLetters(raw);
      assert raw == [raw[0]];
    }
  }

  /** Two names with the same first letter get the same id, and different
      table letters get different ids. */
  lemma SameLetterSameId(a: string, b: string)
    requires a != [] && b != [] && [a[0]] in FilterMap
    ensures NormalizeFilter(a) == NormalizeFilter(b) <==> a[0] == b[0]
  {
    FirstLetterDecides(a);
    FirstLetterDecides(b);
  }

  /** Examples: an exact key, a first letter, and a name left unchanged. */
  lemma KnownNames()
    ensures NormalizeFilter("R") == Id(28943)
    ensures NormalizeFilter("Ha") == Id(4410)
    ensures NormalizeFilter("OIII") == Id(4415)
    ensures NormalizeFilter("SII") == Id(4420)
    ensures NormalizeFilter("Lum") == Id(25576)
    ensures NormalizeFilter("Unknown") == Raw("Unknown")
    ensures NormalizeFilter("r") == Raw("r")
  {
    assert "Ha" !in FilterMap;
    assert "OIII" !in FilterMap;
    assert "SII" !in FilterMap;
    assert "Lum" !in FilterMap;
    assert "Unknown" !in FilterMap && ['U'] !in FilterMap;
    assert "r" !in FilterMap;
  }
}
