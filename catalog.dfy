/** The game catalog as a value: an insertion-ordered list of entries keyed by
    executable path, and the operations the launcher performs on it. */
module Catalog {
  import Paths
  import Text
  import Filtering

  /** One catalog entry. `playtime` is whole seconds; `addedDate` is the
      creation timestamp, kept as the text it was formatted to. */
  datatype Game = Game(name: string, path: string, cover: string, playtime: nat, addedDate: string)

  /** Some entry has this executable path. */
  predicate HasPath(games: seq<Game>, path: string) {
    exists i :: 0 <= i < |games| && games[i].path == path
  }

  /** No two entries share an executable path. */
  ghost predicate UniquePaths(games: seq<Game>) {
    forall i, j :: 0 <= i < j < |games| ==> games[i].path != games[j].path
  }

  // ---------------------------------------------------------------- adding

  /** Outcome of adding the executable chosen in the file picker. */
  datatype AddResult =
    | Added(catalog: seq<Game>, entry: Game)
    | Duplicate
    | Cancelled

  /** Adds the executable at `path`; an empty path is a cancelled picker. */
  function Add(games: seq<Game>, path: string, addedDate: string): (r: AddResult)
    ensures path == "" <==> r == Cancelled
    ensures r == Duplicate <==> path != "" && HasPath(games, path)
    ensures r.Added? ==>
      |r.catalog| == |games| + 1 && r.catalog[..|games|] == games && r.catalog[|games|] == r.entry &&
      r.entry == Game(Paths.GameName(path), path, "", 0, addedDate)
    ensures r.Added? && UniquePaths(games) ==> UniquePaths(r.catalog)
  {
    if path == "" then Cancelled
    else if HasPath(games, path) then Duplicate
    else
      var entry := Game(Paths.GameName(path), path, "", 0, addedDate);
      AppendFresh(games, entry);
      Added(games + [entry], entry)
  }

  /** Appending an entry whose path is absent keeps the old entries as a prefix and
      keeps paths unique. */
  lemma AppendFresh(games: seq<Game>, entry: Game)
    requires !HasPath(games, entry.path)
    ensures (games + [entry])[..|games|] == games
    ensures UniquePaths(games) ==> UniquePaths(games + [entry])
  {
    var c := games + [entry];
    assert c[..|games|] == games;
    assert forall i :: 0 <= i < |games| ==> c[i] == games[i];
  }

  /** What the launcher's add handler does when given `path`: it only builds the new
      entry inside the non-empty branch but appends it unconditionally, so a
      cancelled picker reaches the append with the entry unbound. */
  datatype AddAsWrittenResult = Completed(result: AddResult) | UnboundLocalError

  function AddAsWritten(games: seq<Game>, path: string, addedDate: string): (r: AddAsWrittenResult)
    ensures r.UnboundLocalError? <==> path == ""
    ensures r.Completed? ==> r.result == Add(games, path, addedDate) && !r.result.Cancelled?
  {
    if path == "" then UnboundLocalError else Completed(Add(games, path, addedDate))
  }

  /** Cancelling the file picker raises an uncaught `UnboundLocalError` and shows no
      message. The error comes before the append and the write, so the catalog and
      the file are as untouched as with the corrected `Add`, which reports a
      cancellation with no entry. */
  lemma CancelledPickerRaises(games: seq<Game>, addedDate: string)
    ensures AddAsWritten(games, "", addedDate) == UnboundLocalError
    ensures Add(games, "", addedDate) == Cancelled
  {
  }

  /** After a successful add the new path is in the catalog exactly once, at the end. */
  lemma {:induction false} AddedPathIsLast(games: seq<Game>, path: string, addedDate: string)
    requires Add(games, path, addedDate).Added?
    ensures var c := Add(games, path, addedDate).catalog;
      forall i :: 0 <= i < |c| ==> (c[i].path == path <==> i == |games|)
  {
    var c := Add(games, path, addedDate).catalog;
    forall i | 0 <= i < |games|
      ensures c[i].path != path
    {
      assert c[i] == games[i];
    }
  }

  // -------------------------------------------------------------- deleting

  /** The entries a delete of `path` keeps. */
  function KeepOther(path: string): Game -> bool {
    (g: Game) => g.path != path
  }

  /** Deleting rebuilds the list without the entries whose path is `path`. */
  function Delete(games: seq<Game>, path: string): (r: seq<Game>)
    ensures |r| <= |games|
    ensures forall k :: 0 <= k < |r| ==> r[k].path != path
  {
    Filtering.Filter(games, KeepOther(path))
  }

  /** Delete keeps, in their original order, exactly the entries with another path. */
  lemma {:induction false} DeleteKeepsOthers(games: seq<Game>, path: string)
    ensures var ix := Filtering.Picks(games, KeepOther(path));
      Filtering.At(Delete(games, path), games, ix) && Filtering.Increasing(ix) &&
      forall i :: 0 <= i < |games| ==> (games[i].path != path <==> i in ix)
    ensures !HasPath(Delete(games, path), path)
  {
    Filtering.FilterPicks(games, KeepOther(path));
  }

  /** Deleting a path that no entry has leaves the catalog unchanged. */
  lemma DeleteAbsent(games: seq<Game>, path: string)
    requires !HasPath(games, path)
    ensures Delete(games, path) == games
  {
    Filtering.FilterKeepsAll(games, KeepOther(path));
  }

  /** With unique paths, every entry other than entry `i` survives deleting its path. */
  lemma OthersSurvive(games: seq<Game>, i: nat)
    requires UniquePaths(games) && i < |games|
    ensures Delete(games[..i], games[i].path) == games[..i]
    ensures Delete(games[i + 1..], games[i].path) == games[i + 1..]
  {
    var a, b := games[..i], games[i + 1..];
    assert forall j :: 0 <= j < |a| ==> a[j] == games[j];
    assert forall j :: 0 <= j < |b| ==> b[j] == games[i + 1 + j];
    DeleteAbsent(a, games[i].path);
    DeleteAbsent(b, games[i].path);
  }

  /** Deleting `x`'s path around it, when the parts on either side keep everything,
      leaves just those parts. */
  lemma DeleteAround(a: seq<Game>, x: Game, b: seq<Game>)
    requires Delete(a, x.path) == a && Delete(b, x.path) == b
    ensures Delete(a + [x] + b, x.path) == a + b
  {
    var p := KeepOther(x.path);
    Filtering.FilterAround(a, x, b, p);
    Filtering.FilterSingle(x, p);
  }

  /** In a catalog with unique paths, deleting the path of entry `i` removes that
      one entry and nothing else. */
  lemma DeleteUnique(games: seq<Game>, i: nat)
    requires UniquePaths(games) && i < |games|
    ensures Delete(games, games[i].path) == games[..i] + games[i + 1..]
  {
    OthersSurvive(games, i);
    DeleteAround(games[..i], games[i], games[i + 1..]);
    assert games == games[..i] + [games[i]] + games[i + 1..];
  }

  /** Deleting keeps paths unique. */
  lemma DeletePreservesUnique(games: seq<Game>, path: string)
    requires UniquePaths(games)
    ensures UniquePaths(Delete(games, path))
  {
    DeleteKeepsOthers(games, path);
  }

  /** Deleting the path just added gives back the catalog as it was before the add. */
  lemma DeleteUndoesAdd(games: seq<Game>, path: string, addedDate: string)
    requires Add(games, path, addedDate).Added?
    ensures Delete(Add(games, path, addedDate).catalog, path) == games
  {
    var r := Add(games, path, addedDate);
    var p := KeepOther(path);
    Filtering.FilterAppend(games, [r.entry], p);
    DeleteAbsent(games, path);
    Filtering.FilterSingle(r.entry, p);
  }

  // ------------------------------------------------------------- searching

  /** The entries a non-empty, already lower-cased filter keeps. */
  function NameContains(lowered: string): Game -> bool {
    (g: Game) => Text.Contains(lowered, Text.LowerStr(g.name))
  }

  /** The list shown for the text typed in the search box. */
  function Search(games: seq<Game>, filter: string): (r: seq<Game>)
    ensures |r| <= |games|
    ensures filter != "" ==> forall k :: 0 <= k < |r| ==>
      Text.Contains(Text.LowerStr(filter), Text.LowerStr(r[k].name))
  {
    if filter == "" then games
    else Filtering.Filter(games, NameContains(Text.LowerStr(filter)))
  }

  /** The filter text occurs in the entry's name, ignoring ASCII case. */
  ghost predicate NameMatches(g: Game, filter: string) {
    exists k :: Text.OccursAt(Text.LowerStr(filter), Text.LowerStr(g.name), k)
  }

  /** An empty search shows the whole catalog, in catalog order. */
  lemma SearchEmpty(games: seq<Game>)
    ensures Search(games, "") == games
  {
  }

  /** A non-empty search shows exactly the entries whose name contains the filter
      (ignoring ASCII case), in catalog order. */
  lemma SearchMatches(games: seq<Game>, filter: string)
    requires filter != ""
    ensures var ix := Filtering.Picks(games, NameContains(Text.LowerStr(filter)));
      Filtering.At(Search(games, filter), games, ix) && Filtering.Increasing(ix) &&
      forall i :: 0 <= i < |games| ==> (NameMatches(games[i], filter) <==> i in ix)
  {
    var p := NameContains(Text.LowerStr(filter));
    Filtering.FilterPicks(games, p);
    forall i | 0 <= i < |games|
      ensures NameMatches(games[i], filter) <==> p(games[i])
    {
      Text.ContainsIff(Text.LowerStr(filter), Text.LowerStr(games[i].name));
    }
  }

  // ------------------------------------------------------ in-place updates

  /** Applies `f` to every entry whose path is `path`. */
  function Update(games: seq<Game>, path: string, f: Game -> Game): (r: seq<Game>)
    ensures |r| == |games|
    ensures forall i :: 0 <= i < |games| ==>
      r[i] == if games[i].path == path then f(games[i]) else games[i]
  {
    if games == [] then []
    else [if games[0].path == path then f(games[0]) else games[0]] + Update(games[1..], path, f)
  }

  /** Sets the cover image of the entry with this path; no other field and no
      other entry changes. */
  function SetCover(games: seq<Game>, path: string, cover: string): (r: seq<Game>)
    ensures |r| == |games|
    ensures forall i :: 0 <= i < |games| ==>
      r[i].cover == (if games[i].path == path then cover else games[i].cover) &&
      r[i] == games[i].(cover := r[i].cover)
  {
    Update(games, path, (g: Game) => g.(cover := cover))
  }

  /** Adds `seconds` to the play time of the entry with this path; no play time
      decreases and nothing else changes. */
  function Accrue(games: seq<Game>, path: string, seconds: nat): (r: seq<Game>)
    ensures |r| == |games|
    ensures forall i :: 0 <= i < |games| ==>
      r[i].playtime == games[i].playtime + (if games[i].path == path then seconds else 0) &&
      r[i] == games[i].(playtime := r[i].playtime)
  {
    Update(games, path, (g: Game) => g.(playtime := g.playtime + seconds))
  }

  /** A finished session: the path it was for and the seconds it lasted. */
  datatype Credit = Credit(path: string, seconds: nat)

  /** Applies finished sessions in order: only play times change, and none
      decreases. */
  function AccrueAll(games: seq<Game>, credits: seq<Credit>): (r: seq<Game>)
    ensures |r| == |games|
    ensures forall i :: 0 <= i < |games| ==>
      r[i].playtime >= games[i].playtime && r[i] == games[i].(playtime := r[i].playtime)
    decreases |credits|
  {
    if credits == [] then games
    else AccrueAll(Accrue(games, credits[0].path, credits[0].seconds), credits[1..])
  }

  /** Total seconds of the sessions for `path`. */
  function CreditedTo(credits: seq<Credit>, path: string): nat
    decreases |credits|
  {
    if credits == [] then 0
    else (if credits[0].path == path then credits[0].seconds else 0) + CreditedTo(credits[1..], path)
  }

  /** However sessions of different games interleave, each entry ends up with its
      old play time plus the sum of its own sessions, and nothing else changes. */
  lemma {:induction false} AccrueAllSums(games: seq<Game>, credits: seq<Credit>)
    ensures var r := AccrueAll(games, credits);
      |r| == |games| &&
      forall i :: 0 <= i < |games| ==>
        r[i] == games[i].(playtime := games[i].playtime + CreditedTo(credits, games[i].path))
    decreases |credits|
  {
    if credits != [] {
      var c := credits[0];
      var next := Accrue(games, c.path, c.seconds);
      AccrueAllSums(next, credits[1..]);
      assert forall i :: 0 <= i < |games| ==> next[i].path == games[i].path;
    }
  }
}
