/**
 * Subgenome and chromosome of a cotton gene identifier
 * (cotton_toolkit/utils/gene_utils.py).
 */
module GeneUtils {
  import opened Wrappers
  import opened PyText

  /** The pair `(subgenome, chromosome)`, e.g. `('D', "13")`. */
  datatype Location = Location(subgenome: char, chromosome: string)

  /** The letter class `[AD]` under `re.IGNORECASE`. */
  predicate IsSubgenomeLetter(c: char) { c == 'A' || c == 'a' || c == 'D' || c == 'd' }

  /** The pattern `[_.\s]([AD])(\d{2})G` (case-insensitive) matches at index `i`. */
  predicate MarkerAt(s: string, i: int) {
    0 <= i && i + 5 <= |s|
    && (s[i] == '_' || s[i] == '.' || IsSpace(s[i]))
    && IsSubgenomeLetter(s[i + 1]) && IsDigit(s[i + 2]) && IsDigit(s[i + 3])
    && (s[i + 4] == 'G' || s[i + 4] == 'g')
  }

  /** The groups of a match found at `i`, with the letter upper-cased. */
  function LocationAt(s: string, i: int): Location
    requires MarkerAt(s, i)
  {
    Location(UpperChar(s[i + 1]), s[i + 2..i + 4])
  }

  /** `re.search`: the left-most index from `from` on where the pattern matches, or -1. */
  function FirstMarker(s: string, from: nat): (r: int)
    ensures r == -1 || (from <= r && MarkerAt(s, r))
    ensures forall i :: from <= i && (r == -1 || i < r) ==> !MarkerAt(s, i)
    decreases |s| - from
  {
    if from + 5 > |s| then -1
    else if MarkerAt(s, from) then from
    else FirstMarker(s, from + 1)
  }

  /** The fallback pattern `^GH_([AD])(\d{2})G` (case-insensitive). */
  predicate ZjuMarker(s: string) {
    7 <= |s| && (s[0] == 'G' || s[0] == 'g') && (s[1] == 'H' || s[1] == 'h') && s[2] == '_'
    && IsSubgenomeLetter(s[3]) && IsDigit(s[4]) && IsDigit(s[5]) && (s[6] == 'G' || s[6] == 'g')
  }

  /**
   * `parse_gene_id` on a string argument. The source tries the fallback
   * pattern `ZjuMarker` when the first search fails; `FallbackSubsumed`
   * shows that it then cannot match, so the fallback adds no case here.
   */
  function ParseGeneId(id: string): (r: Option<Location>)
    ensures r.Some? <==> exists i :: MarkerAt(id, i)
    ensures r.Some? ==> exists i :: MarkerAt(id, i) && r.value == LocationAt(id, i)
                         && forall j :: 0 <= j < i ==> !MarkerAt(id, j)
    ensures r.Some? ==> (r.value.subgenome == 'A' || r.value.subgenome == 'D')
                        && |r.value.chromosome| == 2 && AllDigits(r.value.chromosome)
  {
    var i := FirstMarker(id, 0);
    if i >= 0 then Some(LocationAt(id, i)) else None
  }

  /** `parse_gene_id` on any value: a non-string argument gives None. */
  function ParseGeneIdValue(v: Option<string>): (r: Option<Location>)
    ensures v.None? ==> r.None?
    ensures v.Some? ==> r == ParseGeneId(v.value)
  {
    if v.None? then None else ParseGeneId(v.value)
  }

  /** Every identifier the fallback pattern accepts is already accepted by the first one. */
  lemma FallbackSubsumed(id: string)
    requires ZjuMarker(id)
    ensures MarkerAt(id, 2) && FirstMarker(id, 0) >= 0
  {
    assert MarkerAt(id, 2);
  }

  /** The identifier families named in the function's documentation. */
  lemma ParseExampleGhir()
    ensures ParseGeneId("Ghir_A01G000100") == Some(Location('A', "01"))
  {
    var s := "Ghir_A01G000100";
    assert MarkerAt(s, 4);
    assert !MarkerAt(s, 0) && !MarkerAt(s, 1) && !MarkerAt(s, 2) && !MarkerAt(s, 3);
    assert s[6..8] == "01";
  }

  lemma ParseExampleGh()
    ensures ParseGeneId("Gh_D13G1234") == Some(Location('D', "13"))
  {
    var s := "Gh_D13G1234";
    assert MarkerAt(s, 2);
    assert !MarkerAt(s, 0) && !MarkerAt(s, 1);
    assert s[4..6] == "13";
  }

  lemma ParseExampleGohir()
    ensures ParseGeneId("Gohir.A05G012300") == Some(Location('A', "05"))
  {
    var s := "Gohir.A05G012300";
    assert MarkerAt(s, 5);
    assert !MarkerAt(s, 0) && !MarkerAt(s, 1) && !MarkerAt(s, 2) && !MarkerAt(s, 3) && !MarkerAt(s, 4);
    assert s[7..9] == "05";
  }

  /** An Arabidopsis identifier has no subgenome marker. */
  lemma ParseExampleArabidopsis()
    ensures ParseGeneId("AT1G01010") == None
  {
    var s := "AT1G01010";
    assert !MarkerAt(s, 0) && !MarkerAt(s, 1) && !MarkerAt(s, 2) && !MarkerAt(s, 3) && !MarkerAt(s, 4);
  }
}
