/**
 * The extension catalog of installer-lib.js: the entries read from
 * `repository.json`, grouped into categories; the canonical name derived
 * from an entry's repository URL (`_get_name`); the merge of a parsed file
 * into the catalog (`_add_to_repository`); the name -> (category, index)
 * cache (`_get_index_pair`); the listing of one category
 * (`get_extensions_by_category`, ordered by `_compare`); `get_details`.
 */
module Catalog {
  import opened Wrappers
  import opened Text
  import opened Ordering

  /** The `repository` object of an entry; only its `url` is read. */
  datatype Repository = Repository(url: Option<string>)

  /** One entry of a category. A field that is absent (or `null`) is `None`. */
  datatype Extension = Extension(
    repository: Option<Repository>,
    displayName: Option<string>,
    author: Option<string>,
    packager: Option<string>,
    description: Option<string>)

  /** A category: its display name (the merge key) and its entries in order. */
  datatype Category = Category(displayName: Option<string>, extensions: seq<Extension>)

  // ---------------------------------------------------------------------------
  // Name derivation (_get_name)
  // ---------------------------------------------------------------------------

  /** What `_get_name` does with an entry: it answers a name, which may be
      undefined, or it throws a TypeError by reading a piece that `split`
      did not produce. */
  datatype Resolution = Resolved(name: Option<string>) | Throws

  /** `_get_name`: the URL's text before the first ':' must be "https"; the
      text after it is cut at '.', and when the third piece starts with "git"
      the name is the third '/'-piece of the second '.'-piece. */
  function GetName(e: Extension): Resolution {
    if e.repository.None? then Resolved(None)
    else
      match e.repository.value.url
      case None => Throws
      case Some(url) =>
        var scheme := Split(url, ":");
        if scheme[0] != "https" then Resolved(None)
        else if |scheme| < 2 then Throws
        else
          var host := Split(scheme[1], ".");
          if |host| < 3 then Throws
          else if !StartsWith(host[2], "git") then Resolved(None)
          else
            var path := Split(host[1], "/");
            Resolved(if |path| < 3 then None else Some(path[2]))
  }

  /** The locator `https://<host>.<tld>/<owner>/<name>.git`. */
  function GitHubStyleUrl(host: string, tld: string, owner: string, name: string): string {
    "https://" + host + "." + tld + "/" + owner + "/" + name + ".git"
  }

  function EntryWithUrl(url: string): Extension {
    Extension(Some(Repository(Some(url))), None, None, None, None)
  }

  /** A name derived by `_get_name` comes from an "https:" locator whose third
      '.'-piece starts with "git", and holds no '/', '.' or ':'. */
  lemma NameShape(e: Extension)
    requires GetName(e).Resolved? && GetName(e).name.Some?
    ensures e.repository.Some? && e.repository.value.url.Some?
    ensures StartsWith(e.repository.value.url.value, "https:")
    ensures |Split(e.repository.value.url.value, ":")| >= 2
    ensures var host := Split(Split(e.repository.value.url.value, ":")[1], ".");
            |host| >= 3 && StartsWith(host[2], "git")
    ensures var n := GetName(e).name.value; '/' !in n && '.' !in n && ':' !in n
  {
    var url := e.repository.value.url.value;
    var scheme := Split(url, ":");
    var host := Split(scheme[1], ".");
    var path := Split(host[1], "/");
    JoinSplit(url, ":");
    assert url == "https" + ":" + Join(scheme[1..], ":") by {
      assert scheme == [scheme[0]] + scheme[1..];
    }
    assert url[..6] == "https:";
    SplitPieces(url, ':');
    assert scheme[1] in scheme;
    SplitPieces(scheme[1], '.');
    assert host[1] in host;
    SplitPieces(host[1], '/');
    assert path[2] in path;
  }

  /** A locator without the "https" scheme yields no name, and never throws. */
  lemma OtherSchemeHasNoName(e: Extension)
    requires e.repository.Some? && e.repository.value.url.Some?
    requires Split(e.repository.value.url.value, ":")[0] != "https"
    ensures GetName(e) == Resolved(None)
  {
  }

  /** The name derived from a locator whose three splits come out as given. */
  lemma NameFromPieces(url: string, rest: string, host: string, middle: string, tld: string, owner: string, name: string)
    requires Split(url, ":") == ["https", rest]
    requires Split(rest, ".") == [host, middle, "git"]
    requires Split(middle, "/") == [tld, owner, name]
    ensures GetName(EntryWithUrl(url)) == Resolved(Some(name))
  {
    assert StartsWith("git", "git");
  }

  /** Round trip: the name written into a GitHub-style locator is the name derived from it. */
  lemma NameOfGitHubStyleUrl(host: string, tld: string, owner: string, name: string)
    requires ':' !in host && ':' !in tld && ':' !in owner && ':' !in name
    requires '.' !in host && '.' !in tld && '.' !in owner && '.' !in name
    requires '/' !in tld && '/' !in owner && '/' !in name
    ensures GetName(EntryWithUrl(GitHubStyleUrl(host, tld, owner, name))) == Resolved(Some(name))
  {
    var middle := tld + "/" + owner + "/" + name;
    var rest := ("//" + host) + "." + middle + "." + "git";
    var url := GitHubStyleUrl(host, tld, owner, name);
    assert url == "https" + ":" + rest;
    SplitTwo("https", rest, ':');
    SplitThree("//" + host, middle, "git", '.');
    SplitThree(tld, owner, name, '/');
    NameFromPieces(url, rest, "//" + host, middle, tld, owner, name);
  }

  // ---------------------------------------------------------------------------
  // Building the catalog (_add_to_repository, _load_repository)
  // ---------------------------------------------------------------------------

  /** The entries whose `repository` field is present, in order. */
  function Installable(exts: seq<Extension>): (r: seq<Extension>)
    ensures forall e :: e in r <==> e in exts && e.repository.Some?
  {
    if |exts| == 0 then []
    else (if exts[0].repository.Some? then [exts[0]] else []) + Installable(exts[1..])
  }

  /** Each installable entry is kept as many times as it occurs, and no
      other entry is kept. */
  lemma {:induction false} InstallableCounts(exts: seq<Extension>, e: Extension)
    ensures multiset(Installable(exts))[e] == if e.repository.Some? then multiset(exts)[e] else 0
    decreases |exts|
  {
    if |exts| > 0 {
      assert exts == [exts[0]] + exts[1..];
      InstallableCounts(exts[1..], e);
    }
  }

  /** Filtering keeps the order of the entries: the entries kept from two
      runs are those kept from the first, followed by those kept from the
      second. */
  lemma {:induction false} InstallableAppend(a: seq<Extension>, b: seq<Extension>)
    ensures Installable(a + b) == Installable(a) + Installable(b)
    decreases |a|
  {
    if |a| == 0 {
      assert a + b == b;
    } else {
      var head := if a[0].repository.Some? then [a[0]] else [];
      assert (a + b)[0] == a[0] && (a + b)[1..] == a[1..] + b;
      assert Installable(a + b) == head + Installable(a[1..] + b);
      InstallableAppend(a[1..], b);
      assert Installable(a) == head + Installable(a[1..]);
    }
  }

  /** The position of the first category whose display name equals `n`
      (`==`, under which an absent name equals an absent name), or the
      number of categories when there is none. */
  function FindCategory(repos: seq<Category>, n: Option<string>): (j: nat)
    ensures j <= |repos|
    ensures j < |repos| ==> repos[j].displayName == n
    ensures forall k :: 0 <= k < j ==> repos[k].displayName != n
  {
    if |repos| == 0 then 0
    else if repos[0].displayName == n then 0
    else 1 + FindCategory(repos[1..], n)
  }

  /** The entries filed under category name `n`: those of the first category
      of that name, none when there is no such category. */
  function ExtensionsNamed(repos: seq<Category>, n: Option<string>): seq<Extension> {
    var j := FindCategory(repos, n);
    if j < |repos| then repos[j].extensions else []
  }

  predicate NoEmptyCategory(repos: seq<Category>) {
    forall i :: 0 <= i < |repos| ==> repos[i].extensions != []
  }

  predicate AllInstallable(repos: seq<Category>) {
    forall i, j :: 0 <= i < |repos| && 0 <= j < |repos[i].extensions| ==> repos[i].extensions[j].repository.Some?
  }

  predicate UniqueNames(repos: seq<Category>) {
    forall i, j :: 0 <= i < j < |repos| ==> repos[i].displayName != repos[j].displayName
  }

  /** One iteration of the outer loop of `_add_to_repository`. */
  function AddCategory(repos: seq<Category>, c: Category): (r: seq<Category>)
    ensures |repos| <= |r| <= |repos| + 1
    ensures forall k :: 0 <= k < |repos| ==> r[k].displayName == repos[k].displayName
    ensures |r| == |repos| + 1 ==>
              && FindCategory(repos, c.displayName) == |repos|
              && r[|repos|] == Category(c.displayName, Installable(c.extensions))
              && Installable(c.extensions) != []
    ensures NoEmptyCategory(repos) ==> NoEmptyCategory(r)
    ensures AllInstallable(repos) ==> AllInstallable(r)
    ensures UniqueNames(repos) ==> UniqueNames(r)
  {
    var kept := Installable(c.extensions);
    var j := FindCategory(repos, c.displayName);
    if kept == [] then repos
    else if j == |repos| then repos + [Category(c.displayName, kept)]
    else repos[j := repos[j].(extensions := repos[j].extensions + kept)]
  }

  /** Adding a category extends the entries filed under its name by its
      installable entries, and leaves every other name alone. */
  lemma AddCategoryMerges(repos: seq<Category>, c: Category, n: Option<string>)
    ensures ExtensionsNamed(AddCategory(repos, c), n)
         == ExtensionsNamed(repos, n) + (if c.displayName == n then Installable(c.extensions) else [])
  {
    var kept := Installable(c.extensions);
    var j := FindCategory(repos, c.displayName);
    if kept != [] {
      if j == |repos| {
        AppendNamed(repos, Category(c.displayName, kept), n);
      } else {
        MergeNamed(repos, j, kept, n);
      }
    }
  }

  /** A category of a new name appends its entries under that name only. */
  lemma AppendNamed(repos: seq<Category>, d: Category, n: Option<string>)
    requires FindCategory(repos, d.displayName) == |repos|
    ensures ExtensionsNamed(repos + [d], n)
         == ExtensionsNamed(repos, n) + (if d.displayName == n then d.extensions else [])
  {
    AppendFind(repos, d, n);
  }

  /** Searching past the end of `repos` reaches the appended category. */
  lemma {:induction false} AppendFind(repos: seq<Category>, d: Category, n: Option<string>)
    ensures FindCategory(repos + [d], n)
         == if FindCategory(repos, n) < |repos| then FindCategory(repos, n)
            else if d.displayName == n then |repos| else |repos| + 1
  {
    if |repos| > 0 && repos[0].displayName != n {
      assert (repos + [d])[1..] == repos[1..] + [d];
      AppendFind(repos[1..], d, n);
    }
  }

  /** Extending the entries of the category at `j` extends them under its name only. */
  lemma MergeNamed(repos: seq<Category>, j: nat, more: seq<Extension>, n: Option<string>)
    requires j < |repos|
    ensures ExtensionsNamed(repos[j := repos[j].(extensions := repos[j].extensions + more)], n)
         == ExtensionsNamed(repos, n)
            + (if FindCategory(repos, repos[j].displayName) == j && repos[j].displayName == n then more else [])
  {
    RenamelessFind(repos, j, repos[j].(extensions := repos[j].extensions + more), n);
  }

  /** Replacing a category by one of the same name does not move any search. */
  lemma {:induction false} RenamelessFind(repos: seq<Category>, j: nat, x: Category, n: Option<string>)
    requires j < |repos| && x.displayName == repos[j].displayName
    ensures FindCategory(repos[j := x], n) == FindCategory(repos, n)
  {
    if j > 0 && repos[0].displayName != n {
      assert repos[j := x][1..] == repos[1..][j - 1 := x];
      RenamelessFind(repos[1..], j - 1, x, n);
    }
  }

  /** The outer loop of `_add_to_repository`, over the categories of one parsed file. */
  function AddAll(repos: seq<Category>, cats: seq<Category>): seq<Category>
    decreases |cats|
  {
    if |cats| == 0 then repos else AddAll(AddCategory(repos, cats[0]), cats[1..])
  }

  /** `_add_to_repository`: a file that is missing or does not parse adds nothing. */
  function AddToRepository(repos: seq<Category>, file: Option<seq<Category>>): seq<Category> {
    match file
    case None => repos
    case Some(cats) => AddAll(repos, cats)
  }

  /** `_load_repository` empties the catalog, then adds the one catalog file. */
  function LoadRepository(file: Option<seq<Category>>): seq<Category> {
    AddToRepository([], file)
  }

  /** The installable entries of the categories named `n`, in file order. */
  function Gathered(cats: seq<Category>, n: Option<string>): seq<Extension> {
    if |cats| == 0 then []
    else (if cats[0].displayName == n then Installable(cats[0].extensions) else []) + Gathered(cats[1..], n)
  }

  /** Merging is concatenation in load order: the entries filed under a name
      are the earlier ones followed by those of every category of that name. */
  lemma {:induction false} AddAllMerges(repos: seq<Category>, cats: seq<Category>, n: Option<string>)
    ensures ExtensionsNamed(AddAll(repos, cats), n) == ExtensionsNamed(repos, n) + Gathered(cats, n)
    decreases |cats|
  {
    if |cats| > 0 {
      AddCategoryMerges(repos, cats[0], n);
      AddAllMerges(AddCategory(repos, cats[0]), cats[1..], n);
    }
  }

  /** What adding categories keeps true: no empty category, only installable
      entries, one category per display name. */
  lemma {:induction false} AddAllKeepsShape(repos: seq<Category>, cats: seq<Category>)
    requires NoEmptyCategory(repos) && AllInstallable(repos) && UniqueNames(repos)
    ensures var r := AddAll(repos, cats);
            NoEmptyCategory(r) && AllInstallable(r) && UniqueNames(r)
    decreases |cats|
  {
    if |cats| > 0 {
      AddAllKeepsShape(AddCategory(repos, cats[0]), cats[1..]);
    }
  }

  /** A loaded catalog has no empty category, only installable entries, and
      one category per display name. */
  lemma LoadedShape(file: Option<seq<Category>>)
    ensures var r := LoadRepository(file);
            NoEmptyCategory(r) && AllInstallable(r) && UniqueNames(r)
  {
    if file.Some? {
      AddAllKeepsShape([], file.value);
    }
  }

  /** The entry of the category list reported after loading: the category's
      title and its position in the catalog. */
  datatype CategoryChoice = CategoryChoice(title: string, value: nat)

  /** The category list `_load_repository` reports: every category with a
      non-empty display name, in catalog order (it is not sorted). */
  function CategoryChoices(repos: seq<Category>, from: nat): (r: seq<CategoryChoice>)
    requires from <= |repos|
    ensures |r| <= |repos| - from
    ensures forall x :: x in r <==>
              from <= x.value < |repos| && repos[x.value].displayName == Some(x.title) && x.title != ""
    ensures forall i, j :: 0 <= i < j < |r| ==> r[i].value < r[j].value
    ensures forall i :: 0 <= i < |r| ==> from <= r[i].value
    decreases |repos| - from
  {
    if from == |repos| then []
    else
      var rest := CategoryChoices(repos, from + 1);
      if Truthy(repos[from].displayName) then [CategoryChoice(repos[from].displayName.value, from)] + rest
      else rest
  }

  // ---------------------------------------------------------------------------
  // The name index cache (_get_index_pair)
  // ---------------------------------------------------------------------------

  /** `[category_index, index]`: where a name's entry sits in the catalog. */
  datatype Pair = Pair(category: nat, index: nat)

  /** `index_cache`: JavaScript object keys, so an undefined name is stored
      under the key "undefined". */
  type Cache = map<string, Pair>

  /** No entry of the catalog makes `_get_name` throw. */
  predicate Resolvable(repos: seq<Category>) {
    forall i, j :: 0 <= i < |repos| && 0 <= j < |repos[i].extensions| ==> GetName(repos[i].extensions[j]).Resolved?
  }

  predicate ValidPair(repos: seq<Category>, p: Pair) {
    p.category < |repos| && p.index < |repos[p.category].extensions|
  }

  /** The derived name of the entry at (c, j). */
  function NameAt(repos: seq<Category>, c: nat, j: nat): Option<string>
    requires Resolvable(repos) && c < |repos| && j < |repos[c].extensions|
  {
    GetName(repos[c].extensions[j]).name
  }

  /** Every cached pair points at an entry whose derived name is filed under its key. */
  predicate CacheValid(repos: seq<Category>, cache: Cache) {
    && Resolvable(repos)
    && forall k :: k in cache ==>
         ValidPair(repos, cache[k]) && Coerce(NameAt(repos, cache[k].category, cache[k].index)) == k
  }

  /** No entry of category `c` in [lo, hi) derives `name`. */
  predicate NoMatchBetween(repos: seq<Category>, c: nat, lo: nat, hi: nat, name: Option<string>)
    requires Resolvable(repos) && c < |repos| && hi <= |repos[c].extensions|
  {
    forall l :: lo <= l < hi ==> NameAt(repos, c, l) != name
  }

  /** No entry of a category at or after `c` derives `name`. */
  predicate NoMatchFrom(repos: seq<Category>, c: nat, name: Option<string>)
    requires Resolvable(repos)
  {
    forall i, k :: c <= i < |repos| && 0 <= k < |repos[i].extensions| ==> NameAt(repos, i, k) != name
  }

  /** `p` is the first entry deriving `name` in the last category (at or
      after `c`) that has one. */
  predicate LastMatch(repos: seq<Category>, c: nat, p: Pair, name: Option<string>)
    requires Resolvable(repos)
  {
    && c <= p.category
    && ValidPair(repos, p)
    && NameAt(repos, p.category, p.index) == name
    && NoMatchBetween(repos, p.category, 0, p.index, name)
    && NoMatchFrom(repos, p.category + 1, name)
  }

  /** The entry at (c, k) is passed by the scan for `name`: no earlier entry
      of its category derives `name`. */
  predicate Passed(repos: seq<Category>, c: nat, k: nat, name: Option<string>)
    requires Resolvable(repos)
  {
    c < |repos| && k < |repos[c].extensions| && NoMatchBetween(repos, c, 0, k, name)
  }

  datatype Lookup = Lookup(found: Option<Pair>, cache: Cache)

  /** The inner loop of `_get_index_pair` over category `c` from entry `j`:
      it caches every entry it passes and stops at the first one named `name`. */
  function ScanCategory(repos: seq<Category>, c: nat, j: nat, name: Option<string>, cache: Cache): (r: Lookup)
    requires Resolvable(repos) && c < |repos| && j <= |repos[c].extensions|
    ensures cache.Keys <= r.cache.Keys
    ensures r.found.Some? ==>
              && r.found.value.category == c
              && j <= r.found.value.index < |repos[c].extensions|
              && NameAt(repos, c, r.found.value.index) == name
    decreases |repos[c].extensions| - j
  {
    if j == |repos[c].extensions| then Lookup(None, cache)
    else
      var n := NameAt(repos, c, j);
      var cache' := cache[Coerce(n) := Pair(c, j)];
      if n == name then Lookup(Some(Pair(c, j)), cache')
      else ScanCategory(repos, c, j + 1, name, cache')
  }

  /** The inner scan stops at the first match, and finds none only when there is none. */
  lemma {:induction false} ScanCategoryFirst(repos: seq<Category>, c: nat, j: nat, name: Option<string>, cache: Cache)
    requires Resolvable(repos) && c < |repos| && j <= |repos[c].extensions|
    ensures var r := ScanCategory(repos, c, j, name, cache);
            && (r.found.Some? ==> NoMatchBetween(repos, c, j, r.found.value.index, name))
            && (r.found.None? ==> NoMatchBetween(repos, c, j, |repos[c].extensions|, name))
    decreases |repos[c].extensions| - j
  {
    if j < |repos[c].extensions| {
      var n := NameAt(repos, c, j);
      if n != name {
        ScanCategoryFirst(repos, c, j + 1, name, cache[Coerce(n) := Pair(c, j)]);
      }
    }
  }

  /** The inner scan keeps the cache valid. */
  lemma {:induction false} ScanCategoryValid(repos: seq<Category>, c: nat, j: nat, name: Option<string>, cache: Cache)
    requires CacheValid(repos, cache) && c < |repos| && j <= |repos[c].extensions|
    ensures CacheValid(repos, ScanCategory(repos, c, j, name, cache).cache)
    decreases |repos[c].extensions| - j
  {
    if j < |repos[c].extensions| {
      var n := NameAt(repos, c, j);
      var cache' := cache[Coerce(n) := Pair(c, j)];
      assert CacheValid(repos, cache');
      if n != name {
        ScanCategoryValid(repos, c, j + 1, name, cache');
      }
    }
  }

  /** Every entry the inner scan passes, up to and including the match, is cached. */
  lemma {:induction false} ScanCategoryCaches(repos: seq<Category>, c: nat, j: nat, name: Option<string>, cache: Cache)
    requires Resolvable(repos) && c < |repos| && j <= |repos[c].extensions|
    ensures var r := ScanCategory(repos, c, j, name, cache);
            forall k :: j <= k < |repos[c].extensions| && NoMatchBetween(repos, c, j, k, name) ==>
              Coerce(NameAt(repos, c, k)) in r.cache
    decreases |repos[c].extensions| - j
  {
    if j < |repos[c].extensions| {
      var n := NameAt(repos, c, j);
      var cache' := cache[Coerce(n) := Pair(c, j)];
      if n != name {
        ScanCategoryCaches(repos, c, j + 1, name, cache');
        var r := ScanCategory(repos, c, j, name, cache);
        forall k | j < k < |repos[c].extensions| && NoMatchBetween(repos, c, j, k, name)
          ensures Coerce(NameAt(repos, c, k)) in r.cache
        {
          assert NoMatchBetween(repos, c, j + 1, k, name);
        }
      }
    }
  }

  /** The outer loop of `_get_index_pair` from category `c`. It does not stop
      at a match: it scans every remaining category, and a match in a later
      category replaces the one found so far. */
  function ScanFrom(repos: seq<Category>, c: nat, name: Option<string>, cache: Cache, found: Option<Pair>): (r: Lookup)
    requires Resolvable(repos) && c <= |repos|
    ensures cache.Keys <= r.cache.Keys
    decreases |repos| - c
  {
    if c == |repos| then Lookup(found, cache)
    else
      var inner := ScanCategory(repos, c, 0, name, cache);
      ScanFrom(repos, c + 1, name, inner.cache, if inner.found.Some? then inner.found else found)
  }

  /** The outer scan keeps what it was given when no later category has a
      match; otherwise it ends on the first match of the last such category. */
  lemma {:induction false} ScanFromFinds(repos: seq<Category>, c: nat, name: Option<string>, cache: Cache, found: Option<Pair>)
    requires Resolvable(repos) && c <= |repos|
    ensures var r := ScanFrom(repos, c, name, cache, found);
            && (NoMatchFrom(repos, c, name) ==> r.found == found)
            && (!NoMatchFrom(repos, c, name) ==> r.found.Some? && LastMatch(repos, c, r.found.value, name))
    decreases |repos| - c
  {
    if c < |repos| {
      var inner := ScanCategory(repos, c, 0, name, cache);
      var found' := if inner.found.Some? then inner.found else found;
      var r := ScanFrom(repos, c + 1, name, inner.cache, found');
      assert ScanFrom(repos, c, name, cache, found) == r;
      ScanFromFinds(repos, c + 1, name, inner.cache, found');
      if NoMatchFrom(repos, c + 1, name) {
        if inner.found.None? {
          assert NoMatchBetween(repos, c, 0, |repos[c].extensions|, name) by {
            ScanCategoryFirst(repos, c, 0, name, cache);
          }
          assert NoMatchFrom(repos, c, name) by {
            forall i, k | c <= i < |repos| && 0 <= k < |repos[i].extensions|
              ensures NameAt(repos, i, k) != name
            {
              if i == c {
                assert NoMatchBetween(repos, c, 0, |repos[c].extensions|, name);
              }
            }
          }
        } else {
          var p := inner.found.value;
          assert NoMatchBetween(repos, c, 0, p.index, name) by {
            ScanCategoryFirst(repos, c, 0, name, cache);
          }
          assert LastMatch(repos, c, p, name);
          assert !NoMatchFrom(repos, c, name) by {
            assert NameAt(repos, c, p.index) == name;
          }
        }
      } else {
        assert LastMatch(repos, c + 1, r.found.value, name);
      }
    }
  }

  /** The outer scan keeps the cache valid. */
  lemma {:induction false} ScanFromValid(repos: seq<Category>, c: nat, name: Option<string>, cache: Cache, found: Option<Pair>)
    requires CacheValid(repos, cache) && c <= |repos|
    ensures CacheValid(repos, ScanFrom(repos, c, name, cache, found).cache)
    decreases |repos| - c
  {
    if c < |repos| {
      var inner := ScanCategory(repos, c, 0, name, cache);
      ScanCategoryValid(repos, c, 0, name, cache);
      ScanFromValid(repos, c + 1, name, inner.cache, if inner.found.Some? then inner.found else found);
    }
  }

  /** Every entry the outer scan passes is cached. */
  lemma {:induction false} ScanFromCaches(repos: seq<Category>, c: nat, name: Option<string>, cache: Cache, found: Option<Pair>)
    requires Resolvable(repos) && c <= |repos|
    ensures var r := ScanFrom(repos, c, name, cache, found);
            forall i, k :: c <= i && Passed(repos, i, k, name) ==> Coerce(NameAt(repos, i, k)) in r.cache
    decreases |repos| - c
  {
    if c < |repos| {
      var inner := ScanCategory(repos, c, 0, name, cache);
      var found' := if inner.found.Some? then inner.found else found;
      var r := ScanFrom(repos, c + 1, name, inner.cache, found');
      assert r == ScanFrom(repos, c, name, cache, found);
      ScanFromCaches(repos, c + 1, name, inner.cache, found');
      forall i, k | c <= i && Passed(repos, i, k, name) ensures Coerce(NameAt(repos, i, k)) in r.cache {
        if i == c {
          assert Coerce(NameAt(repos, c, k)) in inner.cache by {
            ScanCategoryCaches(repos, c, 0, name, cache);
          }
        }
      }
    }
  }

  /** `_get_index_pair`: the cached pair when the name is a key of the cache,
      otherwise the result of scanning the whole catalog. */
  function IndexPair(repos: seq<Category>, cache: Cache, name: Option<string>): (r: Lookup)
    requires Resolvable(repos)
    ensures cache.Keys <= r.cache.Keys
    ensures Coerce(name) in cache ==> r.found.Some?
  {
    if Coerce(name) in cache then Lookup(Some(cache[Coerce(name)]), cache)
    else ScanFrom(repos, 0, name, cache, None)
  }

  /** With a valid cache, the pair found points at an entry whose name is
      filed under the query, and the cache stays valid; nothing is found only
      when no entry derives the name. */
  lemma IndexPairSound(repos: seq<Category>, cache: Cache, name: Option<string>)
    requires CacheValid(repos, cache)
    ensures var r := IndexPair(repos, cache, name);
            && CacheValid(repos, r.cache)
            && (r.found.Some? ==>
                  ValidPair(repos, r.found.value)
                  && Coerce(NameAt(repos, r.found.value.category, r.found.value.index)) == Coerce(name))
            && (r.found.None? ==> NoMatchFrom(repos, 0, name))
  {
    if Coerce(name) !in cache {
      ScanFromValid(repos, 0, name, cache, None);
      ScanFromFinds(repos, 0, name, cache, None);
    }
  }

  /** On a cache miss the scan caches every entry it passes and answers the
      first match of the last category that has one. */
  lemma IndexPairScan(repos: seq<Category>, cache: Cache, name: Option<string>)
    requires Resolvable(repos) && Coerce(name) !in cache
    ensures var r := IndexPair(repos, cache, name);
            && (forall i, k :: Passed(repos, i, k, name) ==> Coerce(NameAt(repos, i, k)) in r.cache)
            && (r.found.Some? ==> LastMatch(repos, 0, r.found.value, name))
            && (r.found.None? ==> NoMatchFrom(repos, 0, name))
  {
    ScanFromCaches(repos, 0, name, cache, None);
    ScanFromFinds(repos, 0, name, cache, None);
  }

  /** Apart from a query for the text "undefined", the pair found always
      points at an entry that derives exactly the queried name. */
  lemma IndexPairNames(repos: seq<Category>, cache: Cache, name: Option<string>)
    requires CacheValid(repos, cache)
    requires Coerce(name) != "undefined"
    ensures var r := IndexPair(repos, cache, name);
            r.found.Some? ==>
              ValidPair(repos, r.found.value)
              && NameAt(repos, r.found.value.category, r.found.value.index) == name
  {
    IndexPairSound(repos, cache, name);
  }

  /** `get_details`: the entry found for the name; `None` where the program
      reads a field of an undefined pair and throws. */
  function Details(repos: seq<Category>, cache: Cache, name: Option<string>): (r: (Option<Extension>, Cache))
    requires Resolvable(repos)
    ensures cache.Keys <= r.1.Keys
    ensures Coerce(name) in cache && ValidPair(repos, cache[Coerce(name)]) ==> r.0.Some?
  {
    var look := IndexPair(repos, cache, name);
    match look.found
    case None => (None, look.cache)
    case Some(p) =>
      if ValidPair(repos, p) then (Some(repos[p.category].extensions[p.index]), look.cache)
      else (None, look.cache)
  }

  /** With a valid cache, `get_details` answers an entry filed under the name,
      and answers nothing only when no entry derives the name. */
  lemma DetailsSound(repos: seq<Category>, cache: Cache, name: Option<string>)
    requires CacheValid(repos, cache)
    ensures var r := Details(repos, cache, name);
            && CacheValid(repos, r.1)
            && (r.0.Some? ==>
                  exists i, k :: 0 <= i < |repos| && 0 <= k < |repos[i].extensions|
                    && repos[i].extensions[k] == r.0.value && Coerce(NameAt(repos, i, k)) == Coerce(name))
            && (r.0.None? ==> NoMatchFrom(repos, 0, name))
  {
    IndexPairSound(repos, cache, name);
  }

  // ---------------------------------------------------------------------------
  // Listing one category (get_extensions_by_category, _compare)
  // ---------------------------------------------------------------------------

  /** A dropdown entry: the extension's display name and its derived name. */
  datatype Choice = Choice(title: string, value: Option<string>)

  /** The sort key of `_compare`: the lower-cased title. */
  function TitleKey(x: Choice): string {
    Lower(x.title)
  }

  /** `_compare`: -1, 1 or 0 as the lower-cased titles compare with `<` and `>`. */
  function Compare(a: Choice, b: Choice): int {
    if Less(TitleKey(a), TitleKey(b)) then -1
    else if Less(TitleKey(b), TitleKey(a)) then 1
    else 0
  }

  /** `_compare` is a consistent comparator: antisymmetric, and 0 exactly for
      titles equal up to case. */
  lemma CompareConsistent(a: Choice, b: Choice)
    ensures Compare(a, b) == -Compare(b, a)
    ensures Compare(a, b) == 0 <==> TitleKey(a) == TitleKey(b)
    ensures Compare(a, b) < 0 <==> Less(TitleKey(a), TitleKey(b))
  {
    if Less(TitleKey(a), TitleKey(b)) && Less(TitleKey(b), TitleKey(a)) {
      LessTransitive(TitleKey(a), TitleKey(b), TitleKey(a));
      LessIrreflexive(TitleKey(a));
    }
    if TitleKey(a) != TitleKey(b) {
      LessTotal(TitleKey(a), TitleKey(b));
    } else {
      LessIrreflexive(TitleKey(a));
    }
  }

  /** The dropdown entry of the entry at (c, k). */
  function Listed(repos: seq<Category>, c: nat, k: nat): Choice
    requires Resolvable(repos) && c < |repos| && k < |repos[c].extensions|
    requires Truthy(repos[c].extensions[k].displayName)
  {
    Choice(repos[c].extensions[k].displayName.value, NameAt(repos, c, k))
  }

  /** The number of entries of category `c` from `j` on that have a display name. */
  function Titled(exts: seq<Extension>): nat {
    if |exts| == 0 then 0
    else (if Truthy(exts[0].displayName) then 1 else 0) + Titled(exts[1..])
  }

  datatype Listing = Listing(choices: seq<Choice>, cache: Cache)

  /** The collecting loop of `get_extensions_by_category` from entry `j`. */
  function Collect(repos: seq<Category>, c: nat, j: nat, cache: Cache): (r: Listing)
    requires Resolvable(repos) && c < |repos| && j <= |repos[c].extensions|
    ensures |r.choices| == Titled(repos[c].extensions[j..])
    ensures cache.Keys <= r.cache.Keys
    decreases |repos[c].extensions| - j
  {
    var exts := repos[c].extensions;
    if j == |exts| then Listing([], cache)
    else
      assert exts[j..][1..] == exts[j + 1..];
      if Truthy(exts[j].displayName) then
        var rest := Collect(repos, c, j + 1, cache[Coerce(NameAt(repos, c, j)) := Pair(c, j)]);
        Listing([Listed(repos, c, j)] + rest.choices, rest.cache)
      else Collect(repos, c, j + 1, cache)
  }

  /** The collected choices are exactly those of the titled entries from `j` on. */
  lemma {:induction false} CollectMembers(repos: seq<Category>, c: nat, j: nat, cache: Cache)
    requires Resolvable(repos) && c < |repos| && j <= |repos[c].extensions|
    ensures forall x :: x in Collect(repos, c, j, cache).choices <==>
              exists k :: j <= k < |repos[c].extensions| && Truthy(repos[c].extensions[k].displayName)
                          && x == Listed(repos, c, k)
    decreases |repos[c].extensions| - j
  {
    var exts := repos[c].extensions;
    if j < |exts| {
      var cache' := if Truthy(exts[j].displayName) then cache[Coerce(NameAt(repos, c, j)) := Pair(c, j)] else cache;
      CollectMembers(repos, c, j + 1, cache');
    }
  }

  /** Some titled entry of category `c` from `j` on is filed under `key`. */
  predicate NamesFrom(repos: seq<Category>, c: nat, j: nat, key: string)
    requires Resolvable(repos) && c < |repos|
  {
    exists k :: j <= k < |repos[c].extensions| && Truthy(repos[c].extensions[k].displayName)
                && Coerce(NameAt(repos, c, k)) == key
  }

  /** Collecting files every titled entry's name under a pair of category
      `c`; a key that no titled entry is filed under keeps its pair, and no
      other key is added. */
  lemma {:induction false} CollectCaches(repos: seq<Category>, c: nat, j: nat, cache: Cache)
    requires Resolvable(repos) && c < |repos| && j <= |repos[c].extensions|
    ensures var r := Collect(repos, c, j, cache);
            && (forall k :: j <= k < |repos[c].extensions| && Truthy(repos[c].extensions[k].displayName) ==>
                  Coerce(NameAt(repos, c, k)) in r.cache && r.cache[Coerce(NameAt(repos, c, k))].category == c)
            && (forall key :: key in cache ==> key in r.cache && (r.cache[key] == cache[key] || r.cache[key].category == c))
            && (forall key :: key in cache && !NamesFrom(repos, c, j, key) ==> r.cache[key] == cache[key])
            && (forall key :: key in r.cache ==> key in cache || NamesFrom(repos, c, j, key))
    decreases |repos[c].extensions| - j
  {
    var exts := repos[c].extensions;
    if j < |exts| {
      var cache' := if Truthy(exts[j].displayName) then cache[Coerce(NameAt(repos, c, j)) := Pair(c, j)] else cache;
      CollectCaches(repos, c, j + 1, cache');
    }
  }

  /** Collecting keeps the cache valid. */
  lemma {:induction false} CollectValid(repos: seq<Category>, c: nat, j: nat, cache: Cache)
    requires CacheValid(repos, cache) && c < |repos| && j <= |repos[c].extensions|
    ensures CacheValid(repos, Collect(repos, c, j, cache).cache)
    decreases |repos[c].extensions| - j
  {
    var exts := repos[c].extensions;
    if j < |exts| {
      var cache' := if Truthy(exts[j].displayName) then cache[Coerce(NameAt(repos, c, j)) := Pair(c, j)] else cache;
      assert CacheValid(repos, cache');
      CollectValid(repos, c, j + 1, cache');
    }
  }

  /** `get_extensions_by_category`: the titled entries of category `c` as
      (title, derived name), sorted by `_compare`, with every listed name
      cached to its pair. */
  function ExtensionsByCategory(repos: seq<Category>, cache: Cache, c: nat): (r: Listing)
    requires Resolvable(repos) && c < |repos|
    ensures Sorted(r.choices, TitleKey)
    ensures cache.Keys <= r.cache.Keys
    ensures multiset(r.choices) == multiset(Collect(repos, c, 0, cache).choices)
  {
    var collected := Collect(repos, c, 0, cache);
    SortSorted(collected.choices, TitleKey);
    Listing(Sort(collected.choices, TitleKey), collected.cache)
  }

  /** The listing holds one choice per titled entry of the category, and
      nothing else; every listed name is cached to a pair in that category. */
  lemma ListingContents(repos: seq<Category>, cache: Cache, c: nat)
    requires Resolvable(repos) && c < |repos|
    ensures var r := ExtensionsByCategory(repos, cache, c);
            && |r.choices| == Titled(repos[c].extensions)
            && (forall x :: x in r.choices <==>
                  exists k :: 0 <= k < |repos[c].extensions| && Truthy(repos[c].extensions[k].displayName)
                              && x == Listed(repos, c, k))
            && (CacheValid(repos, cache) ==> CacheValid(repos, r.cache))
            && (forall k :: 0 <= k < |repos[c].extensions| && Truthy(repos[c].extensions[k].displayName) ==>
                  Coerce(NameAt(repos, c, k)) in r.cache && r.cache[Coerce(NameAt(repos, c, k))].category == c)
  {
    var collected := Collect(repos, c, 0, cache);
    var r := ExtensionsByCategory(repos, cache, c);
    assert repos[c].extensions[0..] == repos[c].extensions;
    CollectMembers(repos, c, 0, cache);
    CollectCaches(repos, c, 0, cache);
    if CacheValid(repos, cache) {
      CollectValid(repos, c, 0, cache);
    }
    assert |r.choices| == |multiset(r.choices)| == |multiset(collected.choices)| == |collected.choices|;
    forall x ensures x in r.choices <==> x in collected.choices {
      assert x in r.choices <==> x in multiset(r.choices);
      assert x in collected.choices <==> x in multiset(collected.choices);
    }
  }

  /** Listing a category is a stable sort of its titled entries: entries with
      equal lower-cased titles keep their catalog order. */
  lemma ListingIsStable(repos: seq<Category>, cache: Cache, c: nat, k: string)
    requires Resolvable(repos) && c < |repos|
    ensures Matching(ExtensionsByCategory(repos, cache, c).choices, TitleKey, k)
         == Matching(Collect(repos, c, 0, cache).choices, TitleKey, k)
  {
    SortStable(Collect(repos, c, 0, cache).choices, TitleKey, k);
  }
}
