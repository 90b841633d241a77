/** The launcher's state: the catalog, the registry of running sessions and the
    persisted catalog file, with the handlers that change them. */
module Launcher {
  import opened Catalog

  /** What the catalog file holds: no file, a file that does not parse, or a
      parsed list of entries. */
  datatype Store = Missing | Corrupt | Document(entries: seq<Game>)

  /** A launched game's own record of when it started (the waiting thread's
      local start time, independent of the registry). */
  datatype Session = Session(path: string, start: nat)

  /** Outcome of a launch request. */
  datatype LaunchOutcome =
    | ExecutableNotFound
    | SpawnFailed
    | Running(session: Session)

  class App {
    /** The catalog, in insertion order. */
    var games: seq<Game>
    /** Running sessions: executable path to the start time last recorded for it. */
    var running: map<string, nat>
    /** The catalog file as last written. */
    var store: Store

    /** Start-up: the catalog is loaded from the file; a missing file or one that
        cannot be read gives an empty catalog. Nothing is running. */
    constructor (persisted: Store)
      ensures games == (if persisted.Document? then persisted.entries else [])
      ensures running == map[]
      ensures store == persisted
    {
      games := if persisted.Document? then persisted.entries else [];
      running := map[];
      store := persisted;
    }

    /** Writes the whole catalog; a failed write leaves the file as it was. */
    method Save(ok: bool)
      modifies this`store
      ensures store == if ok then Document(games) else old(store)
    {
      if ok {
        store := Document(games);
      }
    }

    /** Adds the executable chosen in the file picker (empty when cancelled). A
        duplicate or a cancellation changes nothing and writes nothing. */
    method AddGame(path: string, addedDate: string, saveOk: bool) returns (r: AddResult)
      modifies this`games, this`store
      ensures r == Add(old(games), path, addedDate)
      ensures games == if r.Added? then r.catalog else old(games)
      ensures store == if r.Added? && saveOk then Document(games) else old(store)
      ensures r.Added? ==> |games| == |old(games)| + 1 && games[..|old(games)|] == old(games)
      ensures UniquePaths(old(games)) ==> UniquePaths(games)
    {
      r := Add(games, path, addedDate);
      if r.Added? {
        games := r.catalog;
        Save(saveOk);
      }
    }

    /** Removes every entry with this path and writes the catalog. */
    method DeleteGame(path: string, saveOk: bool)
      modifies this`games, this`store
      ensures games == Delete(old(games), path)
      ensures !HasPath(games, path)
      ensures !HasPath(old(games), path) ==> games == old(games)
      ensures UniquePaths(old(games)) ==> UniquePaths(games)
      ensures store == if saveOk then Document(games) else old(store)
    {
      DeleteKeepsOthers(games, path);
      if !HasPath(games, path) {
        DeleteAbsent(games, path);
      }
      if UniquePaths(games) {
        DeletePreservesUnique(games, path);
      }
      games := Delete(games, path);
      Save(saveOk);
    }

    /** Sets the cover of the entry with this path to the chosen image; an empty
        (cancelled) choice changes nothing and writes nothing. */
    method UpdateCover(path: string, cover: string, saveOk: bool)
      modifies this`games, this`store
      ensures games == if cover == "" then old(games) else SetCover(old(games), path, cover)
      ensures |games| == |old(games)|
      ensures forall i :: 0 <= i < |games| ==>
        games[i] == if cover != "" && old(games)[i].path == path
                    then old(games)[i].(cover := cover) else old(games)[i]
      ensures store == if cover != "" && saveOk then Document(games) else old(store)
    {
      if cover != "" {
        games := SetCover(games, path, cover);
        Save(saveOk);
      }
    }

    /** Launches the game at `path` at time `now`. `onDisk` says whether the
        executable is on disk, `spawned` whether the process could be started.
        A successful launch records `now` for the path, replacing any earlier
        record for the same path. */
    method PlayGame(path: string, onDisk: bool, spawned: bool, now: nat) returns (r: LaunchOutcome)
      modifies this`running
      ensures !onDisk ==> r == ExecutableNotFound
      ensures onDisk && !spawned ==> r == SpawnFailed
      ensures onDisk && spawned ==> r == Running(Session(path, now))
      ensures running == if r.Running? then old(running)[path := now] else old(running)
    {
      if !onDisk {
        r := ExecutableNotFound;
      } else if !spawned {
        r := SpawnFailed;
      } else {
        r := Running(Session(path, now));
        running := running[path := now];
      }
    }

    /** The process of session `s` exits at `endTime`: its elapsed time is added to
        the entry's play time, the path leaves the registry and the catalog is
        written. Only the play time of the entry with that path changes. */
    method EndSession(s: Session, endTime: nat, saveOk: bool)
      requires s.start <= endTime
      modifies this`games, this`running, this`store
      ensures games == Accrue(old(games), s.path, endTime - s.start)
      ensures |games| == |old(games)|
      ensures forall i :: 0 <= i < |games| ==>
        games[i] == old(games)[i].(playtime := old(games)[i].playtime +
          (if old(games)[i].path == s.path then endTime - s.start else 0))
      ensures s.path !in running && running == old(running) - {s.path}
      ensures store == if saveOk then Document(games) else old(store)
    {
      games := Accrue(games, s.path, endTime - s.start);
      if s.path in running {
        running := running - {s.path};
      }
      Save(saveOk);
    }
  }

  /** With no guard against launching a running game, a second launch of the same
      path overwrites its registry record, and when the first session ends the
      path leaves the registry although the second session is still running.
      Both sessions are still credited in full. */
  method DoubleLaunch(path: string, t1: nat, t2: nat, t3: nat, t4: nat)
    returns (trackedBetween: bool, playtime: nat)
    requires t1 <= t2 <= t3 <= t4
    ensures !trackedBetween
    ensures playtime == (t3 - t1) + (t4 - t2)
  {
    var app := new App(Document([Game("game", path, "", 0, "")]));
    var first := app.PlayGame(path, true, true, t1);
    var second := app.PlayGame(path, true, true, t2);
    app.EndSession(first.session, t3, true);
    trackedBetween := path in app.running;
    app.EndSession(second.session, t4, true);
    playtime := app.games[0].playtime;
  }
}
