/**
 * The install record of installer-lib.js (`npm_installed`): the packages
 * that npm reports as globally installed, name -> version. `_query_installs`
 * reads it from the text printed by `npm list -g --depth=0 [name]`, and
 * `_get_npm_installed_extensions` narrows it to the names the catalog lists.
 * The command itself is not run here: its exit flag, standard output and
 * standard error are the inputs.
 */
module Installs {
  import opened Wrappers
  import opened Text
  import opened OrderedMaps
  import opened Catalog

  /** `npm_installed`: package name -> version, undefined when a listing line gave none. */
  type Record = OMap<string, Option<string>>

  /** `npm_installed[name]`: undefined when the name is absent. */
  function Version(record: Record, name: string): (v: Option<string>)
    ensures v.Some? ==> Entry(name, v) in record
    ensures name !in Keys(record) ==> v.None?
    ensures forall x :: Distinct(record) && Entry(name, x) in record ==> v == x
  {
    assert forall x :: Distinct(record) && Entry(name, x) in record ==> Get(record, name) == Some(x) by {
      forall x | Distinct(record) && Entry(name, x) in record
        ensures Get(record, name) == Some(x)
      {
        var i :| 0 <= i < |record| && record[i] == Entry(name, x);
        GetEntry(record, i);
      }
    }
    match Get(record, name)
    case None => None
    case Some(v) => v
  }

  // ---------------------------------------------------------------------------
  // Standard error of a single-name query
  // ---------------------------------------------------------------------------

  const PeerDepMissing := "npm ERR! peer dep missing"
  const DepMissing := "npm ERR! missing"

  /** A line whose text before the first ": " is one of the two missing-dependency prefixes. */
  predicate IsDependencyLine(line: string) {
    var head := Split(line, ": ")[0];
    head == PeerDepMissing || head == DepMissing
  }

  /** A prefix with nothing after it: the program reads a second piece that is not there. */
  predicate IsBare(line: string) {
    line == PeerDepMissing || line == DepMissing
  }

  /** A non-empty line that is not a missing-dependency report. */
  predicate IsOtherError(line: string) {
    line != "" && !IsDependencyLine(line)
  }

  /** Some line is a bare prefix. */
  predicate AnyBare(lines: seq<string>) {
    exists i :: 0 <= i < |lines| && IsBare(lines[i])
  }

  /** Some line is a non-empty line other than a missing-dependency report. */
  predicate AnyOtherError(lines: seq<string>) {
    exists i :: 0 <= i < |lines| && IsOtherError(lines[i])
  }

  /** Some line is a missing-dependency report. */
  predicate AnyDependencyLine(lines: seq<string>) {
    exists i :: 0 <= i < |lines| && IsDependencyLine(lines[i])
  }

  /** A dependency line lacks a second ": "-piece exactly when it is bare. */
  lemma BareLine(line: string)
    ensures IsDependencyLine(line) && |Split(line, ": ")| < 2 <==> IsBare(line)
  {
    if IsBare(line) {
      assert ':' !in PeerDepMissing && ':' !in DepMissing;
      SplitAbsent(line, ": ");
    } else if |Split(line, ": ")| < 2 {
      assert IndexOf(line, ": ", 0).None?;
      assert Split(line, ": ")[0] == line;
    }
  }

  /** The dependency a non-bare dependency line names: the first ", "-piece after the prefix. */
  function MissingDependency(line: string): string
    requires IsDependencyLine(line) && !IsBare(line)
  {
    BareLine(line);
    Split(Split(line, ": ")[1], ", ")[0]
  }

  /** `peer_deps` (undefined until the first dependency line) and `other_error`. */
  datatype Diagnosis = Diagnosis(missing: Option<OMap<string, ()>>, otherError: bool)

  /** The loop over the lines of standard error; `None` when a bare prefix
      line makes it throw (reading the second ": "-piece of a line that has
      none, which `BareLine` shows is exactly the bare case). It does not
      stop at an error: a later bare line still throws. */
  function Diagnose(lines: seq<string>, missing: Option<OMap<string, ()>>, other: bool): Option<Diagnosis>
    decreases |lines|
  {
    if |lines| == 0 then Some(Diagnosis(missing, other))
    else if IsDependencyLine(lines[0]) then
      if IsBare(lines[0]) then None
      else Diagnose(lines[1..], Some(Put(missing.GetOr([]), MissingDependency(lines[0]), ())), other)
    else Diagnose(lines[1..], missing, other || lines[0] != "")
  }

  /** The scan throws exactly when some line is a bare prefix. */
  lemma {:induction false} DiagnoseThrows(lines: seq<string>, missing: Option<OMap<string, ()>>, other: bool)
    ensures Diagnose(lines, missing, other).None? <==> AnyBare(lines)
    decreases |lines|
  {
    if |lines| > 0 {
      if IsDependencyLine(lines[0]) {
        if !IsBare(lines[0]) {
          DiagnoseThrows(lines[1..], Some(Put(missing.GetOr([]), MissingDependency(lines[0]), ())), other);
        }
      } else {
        assert !IsBare(lines[0]) by { BareLine(lines[0]); }
        DiagnoseThrows(lines[1..], missing, other || lines[0] != "");
      }
      BareShift(lines);
    }
  }

  /** Some line is bare exactly when the first is or some later one is. */
  lemma BareShift(lines: seq<string>)
    requires |lines| > 0
    ensures AnyBare(lines) <==> IsBare(lines[0]) || AnyBare(lines[1..])
  {
    if AnyBare(lines[1..]) {
      var i :| 0 <= i < |lines[1..]| && IsBare(lines[1..][i]);
      assert lines[i + 1] == lines[1..][i];
    }
    if exists i :: 1 <= i < |lines| && IsBare(lines[i]) {
      var i :| 1 <= i < |lines| && IsBare(lines[i]);
      assert lines[1..][i - 1] == lines[i];
    }
  }

  /** When the scan completes, the query has failed exactly when some line
      is a non-empty line other than a dependency report; `peer_deps` is
      defined exactly when some line is a dependency report, and holds
      exactly the dependencies recorded before and those such lines name. */
  lemma DiagnoseFinds(lines: seq<string>, missing: Option<OMap<string, ()>>, other: bool)
    requires Diagnose(lines, missing, other).Some?
    ensures var d := Diagnose(lines, missing, other).value;
            && (d.otherError <==> other || AnyOtherError(lines))
            && (d.missing.Some? <==> missing.Some? || AnyDependencyLine(lines))
            && (forall k :: k in Keys(d.missing.GetOr([])) ==>
                  || k in Keys(missing.GetOr([]))
                  || exists i :: 0 <= i < |lines| && IsDependencyLine(lines[i]) && !IsBare(lines[i])
                                 && MissingDependency(lines[i]) == k)
            && (forall k :: k in Keys(missing.GetOr([])) ==> k in Keys(d.missing.GetOr([])))
            && (forall i :: 0 <= i < |lines| && IsDependencyLine(lines[i]) && !IsBare(lines[i]) ==>
                  MissingDependency(lines[i]) in Keys(d.missing.GetOr([])))
  {
    DiagnoseFlags(lines, missing, other);
    DiagnoseKeys(lines, missing, other);
    DiagnoseRecordsAll(lines, missing, other);
  }

  /** The two flags the scan leaves: `other_error` and whether `peer_deps` is defined. */
  lemma {:induction false} DiagnoseFlags(lines: seq<string>, missing: Option<OMap<string, ()>>, other: bool)
    requires Diagnose(lines, missing, other).Some?
    ensures var d := Diagnose(lines, missing, other).value;
            && (d.otherError <==> other || AnyOtherError(lines))
            && (d.missing.Some? <==> missing.Some? || AnyDependencyLine(lines))
    decreases |lines|
  {
    if |lines| > 0 {
      var rest := lines[1..];
      var dep := IsDependencyLine(lines[0]);
      var missing' := if dep then Some(Put(missing.GetOr([]), MissingDependency(lines[0]), ())) else missing;
      var other' := if dep then other else other || lines[0] != "";
      assert Diagnose(lines, missing, other) == Diagnose(rest, missing', other');
      DiagnoseFlags(rest, missing', other');
      OtherShift(lines);
      DependencyShift(lines);
    }
  }

  /** Some line is an other error exactly when the first is or some later one is. */
  lemma OtherShift(lines: seq<string>)
    requires |lines| > 0
    ensures AnyOtherError(lines)
        <==> IsOtherError(lines[0]) || AnyOtherError(lines[1..])
  {
    if AnyOtherError(lines[1..]) {
      var i :| 0 <= i < |lines[1..]| && IsOtherError(lines[1..][i]);
      assert lines[i + 1] == lines[1..][i];
    }
    if exists i :: 1 <= i < |lines| && IsOtherError(lines[i]) {
      var i :| 1 <= i < |lines| && IsOtherError(lines[i]);
      assert lines[1..][i - 1] == lines[i];
    }
  }

  /** Some line is a dependency report exactly when the first is or some later one is. */
  lemma DependencyShift(lines: seq<string>)
    requires |lines| > 0
    ensures AnyDependencyLine(lines)
        <==> IsDependencyLine(lines[0]) || AnyDependencyLine(lines[1..])
  {
    if AnyDependencyLine(lines[1..]) {
      var i :| 0 <= i < |lines[1..]| && IsDependencyLine(lines[1..][i]);
      assert lines[i + 1] == lines[1..][i];
    }
    if exists i :: 1 <= i < |lines| && IsDependencyLine(lines[i]) {
      var i :| 1 <= i < |lines| && IsDependencyLine(lines[i]);
      assert lines[1..][i - 1] == lines[i];
    }
  }

  /** Every dependency the scan records was already recorded or is named by a line. */
  lemma {:induction false} DiagnoseKeys(lines: seq<string>, missing: Option<OMap<string, ()>>, other: bool)
    requires Diagnose(lines, missing, other).Some?
    ensures var d := Diagnose(lines, missing, other).value;
            forall k :: k in Keys(d.missing.GetOr([])) ==>
              || k in Keys(missing.GetOr([]))
              || exists i :: 0 <= i < |lines| && IsDependencyLine(lines[i]) && !IsBare(lines[i])
                             && MissingDependency(lines[i]) == k
    decreases |lines|
  {
    if |lines| > 0 {
      var d := Diagnose(lines, missing, other).value;
      if IsDependencyLine(lines[0]) {
        var dep := MissingDependency(lines[0]);
        var missing' := Some(Put(missing.GetOr([]), dep, ()));
        assert d == Diagnose(lines[1..], missing', other).value;
        DiagnoseKeys(lines[1..], missing', other);
        PutKeys(missing.GetOr([]), dep, ());
        forall k | k in Keys(d.missing.GetOr([]))
          ensures || k in Keys(missing.GetOr([]))
                  || exists i :: 0 <= i < |lines| && IsDependencyLine(lines[i]) && !IsBare(lines[i])
                                 && MissingDependency(lines[i]) == k
        {
          if k !in Keys(missing'.GetOr([])) {
            var i :| 0 <= i < |lines[1..]| && IsDependencyLine(lines[1..][i]) && !IsBare(lines[1..][i])
                     && MissingDependency(lines[1..][i]) == k;
            assert lines[i + 1] == lines[1..][i];
          }
        }
      } else {
        assert d == Diagnose(lines[1..], missing, other || lines[0] != "").value;
        DiagnoseKeys(lines[1..], missing, other || lines[0] != "");
        forall k | k in Keys(d.missing.GetOr([])) && k !in Keys(missing.GetOr([]))
          ensures exists i :: 0 <= i < |lines| && IsDependencyLine(lines[i]) && !IsBare(lines[i])
                              && MissingDependency(lines[i]) == k
        {
          var i :| 0 <= i < |lines[1..]| && IsDependencyLine(lines[1..][i]) && !IsBare(lines[1..][i])
                   && MissingDependency(lines[1..][i]) == k;
          assert lines[i + 1] == lines[1..][i];
        }
      }
    }
  }

  /** The scan keeps every dependency already recorded and records the one
      each dependency report names. */
  lemma {:induction false} DiagnoseRecordsAll(lines: seq<string>, missing: Option<OMap<string, ()>>, other: bool)
    requires Diagnose(lines, missing, other).Some?
    ensures var d := Diagnose(lines, missing, other).value;
            && (forall k :: k in Keys(missing.GetOr([])) ==> k in Keys(d.missing.GetOr([])))
            && (forall i :: 0 <= i < |lines| && IsDependencyLine(lines[i]) && !IsBare(lines[i]) ==>
                  MissingDependency(lines[i]) in Keys(d.missing.GetOr([])))
    decreases |lines|
  {
    if |lines| > 0 {
      var d := Diagnose(lines, missing, other).value;
      var rest := lines[1..];
      if IsDependencyLine(lines[0]) {
        var dep := MissingDependency(lines[0]);
        var missing' := Some(Put(missing.GetOr([]), dep, ()));
        assert d == Diagnose(rest, missing', other).value;
        DiagnoseRecordsAll(rest, missing', other);
        PutKeys(missing.GetOr([]), dep, ());
        assert dep in Keys(missing'.GetOr([]));
        forall i | 1 <= i < |lines| && IsDependencyLine(lines[i]) && !IsBare(lines[i])
          ensures MissingDependency(lines[i]) in Keys(d.missing.GetOr([]))
        {
          assert rest[i - 1] == lines[i];
        }
      } else {
        var other' := other || lines[0] != "";
        assert d == Diagnose(rest, missing, other').value;
        DiagnoseRecordsAll(rest, missing, other');
        forall i | 1 <= i < |lines| && IsDependencyLine(lines[i]) && !IsBare(lines[i])
          ensures MissingDependency(lines[i]) in Keys(d.missing.GetOr([]))
        {
          assert rest[i - 1] == lines[i];
        }
      }
    }
  }

  // ---------------------------------------------------------------------------
  // Standard output: the listing
  // ---------------------------------------------------------------------------

  /** `line.split(' ')[1]`: the second space-separated token, undefined when there is none. */
  function Token(line: string): Option<string> {
    var words := Split(line, " ");
    if |words| >= 2 then Some(words[1]) else None
  }

  /** The name a listing line records, if any: the token's text before the first '@'. */
  function LineName(line: string): Option<string> {
    var token := Token(line);
    if Truthy(token) then Some(Split(token.value, "@")[0]) else None
  }

  /** One listing line: a non-empty token, split at '@', records piece 0 -> piece 1. */
  function AddLine(record: Record, line: string): (r: Record)
    ensures LineName(line).None? ==> r == record
  {
    var token := Token(line);
    if !Truthy(token) then record
    else
      var nv := Split(token.value, "@");
      Put(record, nv[0], if |nv| >= 2 then Some(nv[1]) else None)
  }

  /** The loop over the listing lines after the first. */
  function AddLines(record: Record, lines: seq<string>): Record
    decreases |lines|
  {
    if |lines| == 0 then record else AddLines(AddLine(record, lines[0]), lines[1..])
  }

  /** A name that no line records reads as before the listing was applied. */
  lemma {:induction false} AddLinesOthers(record: Record, lines: seq<string>, k: string)
    requires forall i :: 0 <= i < |lines| ==> LineName(lines[i]) != Some(k)
    ensures Get(AddLines(record, lines), k) == Get(record, k)
    decreases |lines|
  {
    if |lines| > 0 {
      var token := Token(lines[0]);
      if Truthy(token) {
        var nv := Split(token.value, "@");
        PutGet(record, nv[0], if |nv| >= 2 then Some(nv[1]) else None);
      }
      assert forall i :: 0 <= i < |lines[1..]| ==> lines[1..][i] == lines[i + 1];
      AddLinesOthers(AddLine(record, lines[0]), lines[1..], k);
    }
  }

  /** Applying the listing keeps the names distinct. */
  lemma {:induction false} AddLinesDistinct(record: Record, lines: seq<string>)
    requires Distinct(record)
    ensures Distinct(AddLines(record, lines))
    decreases |lines|
  {
    if |lines| > 0 {
      var token := Token(lines[0]);
      if Truthy(token) {
        var nv := Split(token.value, "@");
        PutDistinct(record, nv[0], if |nv| >= 2 then Some(nv[1]) else None);
      }
      AddLinesDistinct(AddLine(record, lines[0]), lines[1..]);
    }
  }

  // ---------------------------------------------------------------------------
  // Narrowing to the catalog (_get_npm_installed_extensions)
  // ---------------------------------------------------------------------------

  /** Some catalog entry derives `name`. */
  predicate InCatalog(repos: seq<Category>, name: string) {
    exists i, k :: 0 <= i < |repos| && 0 <= k < |repos[i].extensions|
      && GetName(repos[i].extensions[k]) == Resolved(Some(name))
  }

  /** The entries of `record` whose name the catalog lists, versions unchanged, in order. */
  function CatalogOnly(record: Record, repos: seq<Category>): Record {
    if |record| == 0 then []
    else (if InCatalog(repos, record[0].key) then [record[0]] else []) + CatalogOnly(record[1..], repos)
  }

  /** An entry survives exactly when it was recorded and the catalog lists its name. */
  lemma {:induction false} CatalogOnlyMembers(record: Record, repos: seq<Category>)
    ensures forall e :: e in CatalogOnly(record, repos) <==> e in record && InCatalog(repos, e.key)
  {
    if |record| > 0 {
      CatalogOnlyMembers(record[1..], repos);
      assert record == [record[0]] + record[1..];
    }
  }

  /** With a valid cache, a name other than "undefined" has an index pair
      exactly when some catalog entry derives it. */
  lemma FoundIffInCatalog(repos: seq<Category>, cache: Cache, name: string)
    requires CacheValid(repos, cache) && name != "undefined"
    ensures IndexPair(repos, cache, Some(name)).found.Some? <==> InCatalog(repos, name)
  {
    var r := IndexPair(repos, cache, Some(name));
    IndexPairSound(repos, cache, Some(name));
    IndexPairNames(repos, cache, Some(name));
    if r.found.Some? {
      var p := r.found.value;
      assert GetName(repos[p.category].extensions[p.index]) == Resolved(Some(name));
    }
    if InCatalog(repos, name) {
      var i, k :| 0 <= i < |repos| && 0 <= k < |repos[i].extensions|
        && GetName(repos[i].extensions[k]) == Resolved(Some(name));
      assert NameAt(repos, i, k) == Some(name);
    }
  }

  /** The loop of `_get_npm_installed_extensions`: copies each entry whose name
      has an index pair into the new record, threading the index cache. */
  function FilterInstalled(repos: seq<Category>, cache: Cache, installed: Record, acc: Record): (r: (Record, Cache))
    requires Resolvable(repos)
    ensures cache.Keys <= r.1.Keys
    decreases |installed|
  {
    if |installed| == 0 then (acc, cache)
    else
      var look := IndexPair(repos, cache, Some(installed[0].key));
      FilterInstalled(repos, look.cache, installed[1..],
                      if look.found.Some? then Put(acc, installed[0].key, installed[0].value) else acc)
  }

  /** `_get_npm_installed_extensions`. */
  function NpmInstalledExtensions(repos: seq<Category>, cache: Cache, installed: Record): (r: (Record, Cache))
    requires Resolvable(repos)
    ensures cache.Keys <= r.1.Keys
  {
    FilterInstalled(repos, cache, installed, [])
  }

  /** The filter keeps a valid cache valid, whatever names it looks up. */
  lemma {:induction false} FilterValid(repos: seq<Category>, cache: Cache, installed: Record, acc: Record)
    requires CacheValid(repos, cache)
    ensures CacheValid(repos, FilterInstalled(repos, cache, installed, acc).1)
    decreases |installed|
  {
    if |installed| > 0 {
      var look := IndexPair(repos, cache, Some(installed[0].key));
      IndexPairSound(repos, cache, Some(installed[0].key));
      FilterValid(repos, look.cache, installed[1..],
                  if look.found.Some? then Put(acc, installed[0].key, installed[0].value) else acc);
    }
  }

  lemma KeysAppend<V>(m: OMap<string, V>, e: Entry<string, V>)
    ensures Keys(m + [e]) == Keys(m) + [e.key]
  {
  }

  /** With a valid cache and distinct names, none of them "undefined", the
      filter keeps exactly the entries whose name the catalog lists. */
  lemma {:induction false} FilterMatches(repos: seq<Category>, cache: Cache, installed: Record, acc: Record)
    requires CacheValid(repos, cache) && Distinct(installed)
    requires forall i :: 0 <= i < |installed| ==> installed[i].key != "undefined" && installed[i].key !in Keys(acc)
    ensures var r := FilterInstalled(repos, cache, installed, acc);
            r.0 == acc + CatalogOnly(installed, repos) && CacheValid(repos, r.1)
    decreases |installed|
  {
    if |installed| == 0 {
      assert acc + [] == acc;
    } else {
      var e := installed[0];
      var look := IndexPair(repos, cache, Some(e.key));
      var keep := look.found.Some?;
      var rest := installed[1..];
      var acc' := if keep then Put(acc, e.key, e.value) else acc;
      var r := FilterInstalled(repos, look.cache, rest, acc');
      assert FilterInstalled(repos, cache, installed, acc) == r;
      assert keep <==> InCatalog(repos, e.key) by { FoundIffInCatalog(repos, cache, e.key); }
      assert CacheValid(repos, look.cache) by { IndexPairSound(repos, cache, Some(e.key)); }
      assert r.0 == acc' + CatalogOnly(rest, repos) && CacheValid(repos, r.1) by {
        FilterStep(acc, installed, keep);
        FilterMatches(repos, look.cache, rest, acc');
      }
      if keep {
        assert acc' == acc + [e] by { FilterStep(acc, installed, keep); }
        assert CatalogOnly(installed, repos) == [e] + CatalogOnly(rest, repos);
        assert acc + [e] + CatalogOnly(rest, repos) == acc + ([e] + CatalogOnly(rest, repos));
      } else {
        assert CatalogOnly(installed, repos) == [] + CatalogOnly(rest, repos);
        assert [] + CatalogOnly(rest, repos) == CatalogOnly(rest, repos);
      }
    }
  }

  /** One step of the filter keeps the remaining names out of the new record. */
  lemma FilterStep(acc: Record, installed: Record, keep: bool)
    requires |installed| > 0 && Distinct(installed)
    requires forall i :: 0 <= i < |installed| ==> installed[i].key !in Keys(acc)
    ensures var acc' := if keep then Put(acc, installed[0].key, installed[0].value) else acc;
            && (keep ==> acc' == acc + [installed[0]])
            && Distinct(installed[1..])
            && forall i :: 0 <= i < |installed[1..]| ==> installed[1..][i].key !in Keys(acc')
  {
    var e := installed[0];
    if keep {
      PutAppends(acc, e.key, e.value);
      KeysAppend(acc, e);
    }
    forall i | 0 <= i < |installed[1..]| ensures installed[1..][i] == installed[i + 1] {}
  }

  /** `_get_npm_installed_extensions` keeps exactly the catalog's names, versions unchanged. */
  lemma NpmInstalledMatches(repos: seq<Category>, cache: Cache, installed: Record)
    requires CacheValid(repos, cache) && Distinct(installed)
    requires forall i :: 0 <= i < |installed| ==> installed[i].key != "undefined"
    ensures var r := NpmInstalledExtensions(repos, cache, installed);
            r.0 == CatalogOnly(installed, repos) && CacheValid(repos, r.1)
  {
    FilterMatches(repos, cache, installed, []);
  }

  // ---------------------------------------------------------------------------
  // The query callback (_query_installs)
  // ---------------------------------------------------------------------------

  /** A query: the package name given (undefined for the full listing), and
      the exit error flag, standard output and standard error of the command. */
  datatype Query = Query(name: Option<string>, err: bool, stdout: string, stderr: string)

  /** The callback throws on a bare dependency line, fails on any other
      error line, and otherwise updates the record and reports the missing
      dependencies (undefined when there were none). */
  datatype Outcome = Crashed | Failed | Updated(record: Record, missing: Option<seq<string>>)

  /** `extension_root` is set before anything else, whatever the outcome. */
  datatype QueryResult = QueryResult(root: string, outcome: Outcome, cache: Cache)

  /** The diagnosis of standard error: only a single-name query that exited with an error reads it. */
  function Diagnosed(q: Query): Option<Diagnosis> {
    if Truthy(q.name) && q.err then Diagnose(Split(q.stderr, "\n"), None, false)
    else Some(Diagnosis(None, false))
  }

  /** The record after the listing, before narrowing: a single-name query
      deletes only that name first, a full query starts afresh. */
  function Unfiltered(record: Record, q: Query): Record {
    var base := if Truthy(q.name) then Remove(record, q.name.value) else [];
    AddLines(base, Split(q.stdout, "\n")[1..])
  }

  function QueryInstalls(repos: seq<Category>, cache: Cache, record: Record, q: Query): (r: QueryResult)
    requires Resolvable(repos)
    ensures r.root == Split(q.stdout, "\n")[0] + "/"
    ensures cache.Keys <= r.cache.Keys
    ensures r.outcome.Crashed? <==> Diagnosed(q).None?
    ensures r.outcome.Failed? <==> Diagnosed(q).Some? && Diagnosed(q).value.otherError
    ensures !r.outcome.Updated? ==> r.cache == cache
    ensures r.outcome.Updated? && |repos| == 0 ==> r.outcome.record == Unfiltered(record, q)
  {
    var root := Split(q.stdout, "\n")[0] + "/";
    match Diagnosed(q)
    case None => QueryResult(root, Crashed, cache)
    case Some(d) =>
      if d.otherError then QueryResult(root, Failed, cache)
      else
        var missing := if d.missing.Some? then Some(Keys(d.missing.value)) else None;
        var added := Unfiltered(record, q);
        if |repos| > 0 then
          var kept := NpmInstalledExtensions(repos, cache, added);
          QueryResult(root, Updated(kept.0, missing), kept.1)
        else QueryResult(root, Updated(added, missing), cache)
  }

  /** The query throws exactly for a single-name query that exited with an
      error and printed a bare prefix line; it fails, leaving the record
      alone, exactly when it would not throw and some other non-empty line
      was printed. */
  lemma QueryFailure(repos: seq<Category>, cache: Cache, record: Record, q: Query)
    requires Resolvable(repos)
    ensures var r := QueryInstalls(repos, cache, record, q);
            var errs := Split(q.stderr, "\n");
            && (r.outcome.Crashed? <==>
                  Truthy(q.name) && q.err && AnyBare(errs))
            && (r.outcome.Failed? <==>
                  Truthy(q.name) && q.err && !AnyBare(errs) && AnyOtherError(errs))
  {
    var r := QueryInstalls(repos, cache, record, q);
    assert r.outcome.Crashed? <==> Diagnosed(q).None?;
    assert r.outcome.Failed? <==> Diagnosed(q).Some? && Diagnosed(q).value.otherError;
    if Truthy(q.name) && q.err {
      var errs := Split(q.stderr, "\n");
      assert Diagnosed(q) == Diagnose(errs, None, false);
      DiagnoseThrows(errs, None, false);
      if Diagnose(errs, None, false).Some? {
        DiagnoseFlags(errs, None, false);
      }
    } else {
      assert Diagnosed(q) == Some(Diagnosis(None, false));
    }
  }

  /** A full query's outcome does not depend on the record it replaces. */
  lemma FullQueryReplaces(repos: seq<Category>, cache: Cache, record1: Record, record2: Record, q: Query)
    requires Resolvable(repos) && !Truthy(q.name)
    ensures QueryInstalls(repos, cache, record1, q) == QueryInstalls(repos, cache, record2, q)
  {
  }

  /** A single-name query deletes only that name: with an empty catalog, every
      other name no listing line records reads as before, and the queried name
      is gone unless a line records it again. */
  lemma SingleQueryKeepsOthers(cache: Cache, record: Record, q: Query, k: string)
    requires Truthy(q.name)
    requires QueryInstalls([], cache, record, q).outcome.Updated?
    requires forall i :: 1 <= i < |Split(q.stdout, "\n")| ==> LineName(Split(q.stdout, "\n")[i]) != Some(k)
    ensures var r := QueryInstalls([], cache, record, q).outcome.record;
            Get(r, k) == if k == q.name.value then None else Get(record, k)
  {
    var lines := Split(q.stdout, "\n");
    var base := Remove(record, q.name.value);
    assert forall i :: 0 <= i < |lines[1..]| ==> lines[1..][i] == lines[i + 1];
    AddLinesOthers(base, lines[1..], k);
    RemoveGet(record, q.name.value);
    if k == q.name.value {
      assert Get(base, k).None?;
    }
  }

  /** With a catalog lookup, narrowing reads a name as before when the
      catalog lists it, and as absent otherwise. */
  lemma {:induction false} CatalogOnlyGet(record: Record, repos: seq<Category>, k: string)
    ensures Get(CatalogOnly(record, repos), k) == if InCatalog(repos, k) then Get(record, k) else None
  {
    if |record| > 0 {
      var rest := CatalogOnly(record[1..], repos);
      CatalogOnlyGet(record[1..], repos, k);
      assert record == [record[0]] + record[1..];
      GetCons(record[0], record[1..], k);
      if InCatalog(repos, record[0].key) {
        assert CatalogOnly(record, repos) == [record[0]] + rest;
        GetCons(record[0], rest, k);
      } else {
        assert CatalogOnly(record, repos) == rest;
      }
    }
  }

  /** A single-name query with a non-empty catalog deletes only that name:
      every other name no listing line records reads as before when the
      catalog lists it and is dropped otherwise, and the queried name is gone
      unless a line records it again. */
  lemma NarrowedQueryKeepsOthers(repos: seq<Category>, cache: Cache, record: Record, q: Query, k: string)
    requires CacheValid(repos, cache) && |repos| > 0 && Distinct(record)
    requires Truthy(q.name)
    requires QueryInstalls(repos, cache, record, q).outcome.Updated?
    requires forall e :: e in Unfiltered(record, q) ==> e.key != "undefined"
    requires forall i :: 1 <= i < |Split(q.stdout, "\n")| ==> LineName(Split(q.stdout, "\n")[i]) != Some(k)
    ensures var r := QueryInstalls(repos, cache, record, q).outcome.record;
            Get(r, k) == if k == q.name.value || !InCatalog(repos, k) then None else Get(record, k)
  {
    QueryNarrows(repos, cache, record, q);
    var lines := Split(q.stdout, "\n");
    var base := Remove(record, q.name.value);
    assert forall i :: 0 <= i < |lines[1..]| ==> lines[1..][i] == lines[i + 1];
    AddLinesOthers(base, lines[1..], k);
    RemoveGet(record, q.name.value);
    CatalogOnlyGet(Unfiltered(record, q), repos, k);
  }

  /** With a non-empty catalog and a valid cache, the record kept is the
      listing narrowed to the catalog's names, versions unchanged. */
  lemma QueryNarrows(repos: seq<Category>, cache: Cache, record: Record, q: Query)
    requires CacheValid(repos, cache) && |repos| > 0 && Distinct(record)
    requires QueryInstalls(repos, cache, record, q).outcome.Updated?
    requires forall e :: e in Unfiltered(record, q) ==> e.key != "undefined"
    ensures var r := QueryInstalls(repos, cache, record, q);
            r.outcome.record == CatalogOnly(Unfiltered(record, q), repos) && CacheValid(repos, r.cache)
  {
    var base := if Truthy(q.name) then Remove(record, q.name.value) else [];
    if Truthy(q.name) {
      RemoveDistinct(record, q.name.value);
    }
    AddLinesDistinct(base, Split(q.stdout, "\n")[1..]);
    var added := Unfiltered(record, q);
    var kept := NpmInstalledExtensions(repos, cache, added);
    var r := QueryInstalls(repos, cache, record, q);
    assert Diagnosed(q).Some? && !Diagnosed(q).value.otherError;
    assert r.outcome.record == kept.0 && r.cache == kept.1;
    assert forall i :: 0 <= i < |added| ==> added[i] in added;
    NpmInstalledMatches(repos, cache, added);
  }

  // ---------------------------------------------------------------------------
  // Round trip: a rendered listing parses back into its record
  // ---------------------------------------------------------------------------

  /** Names and versions as npm prints them: no space, '@' or line break. */
  predicate Plain(s: string) {
    ' ' !in s && '@' !in s && '\n' !in s
  }

  /** A record every entry of which has a plain name and a plain version. */
  predicate Printable(record: Record) {
    forall i :: 0 <= i < |record| ==> Plain(record[i].key) && record[i].value.Some? && Plain(record[i].value.value)
  }

  /** One listing line: a tree branch, a space, then `name@version`. */
  function RenderLine(branch: string, e: Entry<string, Option<string>>): string
    requires e.value.Some?
  {
    branch + " " + e.key + "@" + e.value.value
  }

  function RenderLines(branch: string, record: Record): (lines: seq<string>)
    requires Printable(record)
    ensures |lines| == |record|
    ensures forall i :: 0 <= i < |record| ==> lines[i] == RenderLine(branch, record[i])
  {
    if |record| == 0 then [] else [RenderLine(branch, record[0])] + RenderLines(branch, record[1..])
  }

  /** The whole listing: the installation root, then one line per package. */
  function RenderListing(root: string, branch: string, record: Record): string
    requires Printable(record)
  {
    Join([root] + RenderLines(branch, record), "\n")
  }

  lemma ParseLine(branch: string, acc: Record, e: Entry<string, Option<string>>)
    requires ' ' !in branch && Plain(e.key) && e.value.Some? && Plain(e.value.value)
    requires e.key !in Keys(acc)
    ensures AddLine(acc, RenderLine(branch, e)) == acc + [e]
  {
    var nv := e.key + "@" + e.value.value;
    assert RenderLine(branch, e) == branch + " " + nv;
    SplitTwo(branch, nv, ' ');
    SplitTwo(e.key, e.value.value, '@');
    PutAppends(acc, e.key, e.value);
  }

  lemma {:induction false} ParseLines(branch: string, acc: Record, record: Record)
    requires ' ' !in branch && Printable(record) && Distinct(record)
    requires forall i :: 0 <= i < |record| ==> record[i].key !in Keys(acc)
    ensures AddLines(acc, RenderLines(branch, record)) == acc + record
    decreases |record|
  {
    if |record| == 0 {
      assert acc + record == acc;
    } else {
      var e := record[0];
      var tail := record[1..];
      calc {
        AddLines(acc, RenderLines(branch, record));
        { ParseLine(branch, acc, e);
          assert RenderLines(branch, record)[1..] == RenderLines(branch, tail); }
        AddLines(acc + [e], RenderLines(branch, tail));
        { FilterStep(acc, record, true);
          forall i | 0 <= i < |tail| ensures tail[i] == record[i + 1] {}
          ParseLines(branch, acc + [e], tail); }
        acc + [e] + tail;
        { assert record == [e] + tail; }
        acc + record;
      }
    }
  }

  /** Round trip: a full query over a rendered listing, with an empty
      catalog, yields exactly the rendered record and its root. */
  lemma ListingRoundTrip(root: string, branch: string, record: Record, old_record: Record, cache: Cache, err: bool, stderr: string)
    requires '\n' !in root && ' ' !in branch && '\n' !in branch
    requires Printable(record) && Distinct(record)
    ensures QueryInstalls([], cache, old_record, Query(None, err, RenderListing(root, branch, record), stderr))
         == QueryResult(root + "/", Updated(record, None), cache)
  {
    var lines := RenderLines(branch, record);
    forall i | 0 <= i < |[root] + lines| ensures '\n' !in ([root] + lines)[i] {
      if i > 0 {
        assert ([root] + lines)[i] == RenderLine(branch, record[i - 1]);
      }
    }
    SplitJoin([root] + lines, '\n');
    assert ([root] + lines)[1..] == lines;
    ParseLines(branch, [], record);
  }
}
