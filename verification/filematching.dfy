/**
 * Pairing the files of the old and the new version by name, ignoring case.
 * Each side's names go into a dictionary keyed by the lower-cased name (a
 * later name with the same key replaces an earlier one); the files compared
 * are those whose key is on both sides. The batch scripts keep only names
 * that end in ".xml" once lower-cased; the live page keeps every uploaded
 * name (its upload widget already asks for XML files).
 */
module FileMatching {
  import opened PyText

  /** The batch scripts' filter `f.lower().endswith(".xml")`, or no filter. */
  predicate Kept(name: string, xmlOnly: bool) {
    !xmlOnly || EndsWith(Lower(name), ".xml")
  }

  /**
   * `{f.lower(): f for f in names if ...}`: every kept name under its
   * lower-cased key, the last of several names with one key winning.
   */
  function KeyMap(names: seq<string>, xmlOnly: bool): (m: map<string, string>)
    ensures forall key :: key in m <==> exists i :: 0 <= i < |names| && Kept(names[i], xmlOnly) && Lower(names[i]) == key
  {
    if names == [] then map[]
    else
      var init := names[..|names| - 1];
      var last := names[|names| - 1];
      assert forall i :: 0 <= i < |init| ==> init[i] == names[i];
      if Kept(last, xmlOnly) then KeyMap(init, xmlOnly)[Lower(last) := last] else KeyMap(init, xmlOnly)
  }

  /** `names[i]` is kept, lower-cases to `key`, and no later name does both. */
  predicate LastWithKey(names: seq<string>, xmlOnly: bool, key: string, i: int) {
    && 0 <= i < |names| && Kept(names[i], xmlOnly) && Lower(names[i]) == key
    && forall j :: i < j < |names| ==> !(Kept(names[j], xmlOnly) && Lower(names[j]) == key)
  }

  /**
   * Each key maps back to a kept name of its own listing that lower-cases
   * to it, the last such name in the listing.
   */
  lemma {:induction false} KeyMapLastWins(names: seq<string>, xmlOnly: bool, key: string)
    requires key in KeyMap(names, xmlOnly)
    ensures exists i :: LastWithKey(names, xmlOnly, key, i) && names[i] == KeyMap(names, xmlOnly)[key]
  {
    var init := names[..|names| - 1];
    var last := names[|names| - 1];
    if Kept(last, xmlOnly) && Lower(last) == key {
      assert LastWithKey(names, xmlOnly, key, |names| - 1);
    } else {
      KeyMapLastWins(init, xmlOnly, key);
      var t :| LastWithKey(init, xmlOnly, key, t) && init[t] == KeyMap(init, xmlOnly)[key];
      LastWithKeySnoc(names, xmlOnly, key, t);
      assert names[t] == init[t];
    }
  }

  /** A last match among all but the final name stays the last when the final name does not match. */
  lemma LastWithKeySnoc(names: seq<string>, xmlOnly: bool, key: string, t: int)
    requires names != [] && LastWithKey(names[..|names| - 1], xmlOnly, key, t)
    requires !(Kept(names[|names| - 1], xmlOnly) && Lower(names[|names| - 1]) == key)
    ensures LastWithKey(names, xmlOnly, key, t)
  {
    var init := names[..|names| - 1];
    forall j | t < j < |names|
      ensures !(Kept(names[j], xmlOnly) && Lower(names[j]) == key)
    {
      if j < |init| {
        assert names[j] == init[j];
      }
    }
  }

  /** `set(old.keys()).intersection(set(new.keys()))` */
  function CommonKeys(oldMap: map<string, string>, newMap: map<string, string>): (common: set<string>)
    ensures forall key :: key in common <==> key in oldMap && key in newMap
  {
    oldMap.Keys * newMap.Keys
  }

  /** How the pairing of one run ends. */
  datatype Matching =
    | NotUploaded                               // the live page before both lists hold a file
    | NoMatch(message: string)                  // no report: only this message is shown
    | Matched(pairs: map<string, (string, string)>) // per key, the old and the new name compared

  /** Some kept old name and some kept new name are equal once lower-cased. */
  predicate ShareAName(oldNames: seq<string>, newNames: seq<string>, xmlOnly: bool) {
    exists i, j :: 0 <= i < |oldNames| && 0 <= j < |newNames|
      && Kept(oldNames[i], xmlOnly) && Kept(newNames[j], xmlOnly) && Lower(oldNames[i]) == Lower(newNames[j])
  }

  /** The pairs of names compared, one per common key. */
  function Pairs(oldMap: map<string, string>, newMap: map<string, string>): (pairs: map<string, (string, string)>)
    ensures pairs.Keys == CommonKeys(oldMap, newMap)
    ensures forall key :: key in pairs ==> pairs[key] == (oldMap[key], newMap[key])
  {
    map key | key in CommonKeys(oldMap, newMap) :: (oldMap[key], newMap[key])
  }

  /** The pairing of the batch scripts, over the two folders' listings. */
  function MatchFolders(oldNames: seq<string>, newNames: seq<string>): (r: Matching)
    ensures r.NoMatch? <==> !ShareAName(oldNames, newNames, true)
    ensures r.NoMatch? ==> r.message == "\U{274C} No matching XML files found in both folders."
    ensures !r.NotUploaded?
    ensures r.Matched? ==> r.pairs != map[] && PairsAgree(oldNames, newNames, true, r.pairs)
  {
    Match(oldNames, newNames, true, "\U{274C} No matching XML files found in both folders.")
  }

  /** The pairing of the live page, over the two upload lists. */
  function MatchUploads(oldNames: seq<string>, newNames: seq<string>): (r: Matching)
    ensures r.NotUploaded? <==> oldNames == [] || newNames == []
    ensures r.NoMatch? <==> oldNames != [] && newNames != [] && !ShareAName(oldNames, newNames, false)
    ensures r.NoMatch? ==> r.message == "\U{274C} No matching XML filenames found."
    ensures r.Matched? ==> r.pairs != map[] && PairsAgree(oldNames, newNames, false, r.pairs)
  {
    if oldNames == [] || newNames == [] then NotUploaded
    else Match(oldNames, newNames, false, "\U{274C} No matching XML filenames found.")
  }

  /**
   * The pairs are exactly the keys on both sides, and each pairs the last
   * kept old name and the last kept new name with that key.
   */
  predicate PairsAgree(oldNames: seq<string>, newNames: seq<string>, xmlOnly: bool,
                       pairs: map<string, (string, string)>) {
    pairs == Pairs(KeyMap(oldNames, xmlOnly), KeyMap(newNames, xmlOnly))
  }

  function Match(oldNames: seq<string>, newNames: seq<string>, xmlOnly: bool, message: string): (r: Matching)
    ensures r.NoMatch? <==> !ShareAName(oldNames, newNames, xmlOnly)
    ensures r.NoMatch? ==> r.message == message
    ensures r.Matched? ==> r.pairs != map[] && PairsAgree(oldNames, newNames, xmlOnly, r.pairs)
    ensures !r.NotUploaded?
  {
    var oldMap, newMap := KeyMap(oldNames, xmlOnly), KeyMap(newNames, xmlOnly);
    var pairs := Pairs(oldMap, newMap);
    SharedKey(oldNames, newNames, xmlOnly);
    if pairs == map[] then NoMatch(message) else Matched(pairs)
  }

  /** A key is common to both dictionaries exactly when the two listings share a name up to case. */
  lemma SharedKey(oldNames: seq<string>, newNames: seq<string>, xmlOnly: bool)
    ensures CommonKeys(KeyMap(oldNames, xmlOnly), KeyMap(newNames, xmlOnly)) != {}
        <==> ShareAName(oldNames, newNames, xmlOnly)
  {
    var oldMap, newMap := KeyMap(oldNames, xmlOnly), KeyMap(newNames, xmlOnly);
    if ShareAName(oldNames, newNames, xmlOnly) {
      var i, j :| 0 <= i < |oldNames| && 0 <= j < |newNames|
        && Kept(oldNames[i], xmlOnly) && Kept(newNames[j], xmlOnly) && Lower(oldNames[i]) == Lower(newNames[j]);
      assert Lower(oldNames[i]) in CommonKeys(oldMap, newMap);
    }
  }

  /**
   * Every compared pair names files of the right sides whose names are
   * equal up to case, and in the batch scripts both end in ".xml".
   */
  lemma PairedNamesAgree(oldNames: seq<string>, newNames: seq<string>, xmlOnly: bool, key: string)
    requires key in Pairs(KeyMap(oldNames, xmlOnly), KeyMap(newNames, xmlOnly))
    ensures var (o, n) := Pairs(KeyMap(oldNames, xmlOnly), KeyMap(newNames, xmlOnly))[key];
      && o in oldNames && n in newNames
      && Lower(o) == key == Lower(n)
      && (xmlOnly ==> EndsWith(key, ".xml"))
  {
    KeyMapLastWins(oldNames, xmlOnly, key);
    KeyMapLastWins(newNames, xmlOnly, key);
  }
}
