/**
 * The settings dialog of the extension: the layout it shows (`makelayout`),
 * opening it (`get_settings`) and saving it (`save_settings`). Only the
 * decisions are modelled: which category and extension stay selected, which
 * extensions and actions are offered, and what the pending-actions label
 * says. The widgets themselves are not.
 */
module Settings {
  import opened Wrappers
  import opened Text
  import opened OrderedMaps
  import opened Catalog
  import opened Installs
  import opened Status
  import opened Lifecycle
  import opened Pending

  /** The state the dialog code keeps next to the installer: the category
      list last reported by the installer (undefined after an empty catalog),
      the extension and action lists last shown, the pending queue and the
      saved values. */
  datatype Session = Session(
    installer: Manager,
    categoryList: Option<seq<CategoryChoice>>,
    extensionList: seq<Choice>,
    actionList: seq<ActionPair>,
    queue: Queue,
    saved: Values)

  /** The session once the installer has started: the category list is what
      loading the catalog reported; nothing has been shown or staged yet. */
  function Begin(loaded: Loaded, saved: Values): (s: Session)
    ensures s.installer == loaded.m && s.categoryList == loaded.categories
    ensures s.queue == [] && s.extensionList == [] && s.actionList == [] && s.saved == saved
  {
    Session(loaded.m, loaded.categories, [], [], [], saved)
  }

  /** What the session code relies on: the catalog resolves, the index cache
      is valid, the queue has distinct keys, and the category list offers no
      more categories than the catalog holds, each pointing into it. */
  predicate SessionGood(s: Session) {
    && CacheValid(s.installer.repos, s.installer.cache)
    && Distinct(s.queue)
    && (s.categoryList.Some? ==> |s.categoryList.value| <= |s.installer.repos|)
    && (s.categoryList.Some? ==> forall x :: x in s.categoryList.value ==> x.value < |s.installer.repos|)
  }

  /** The session right after start-up is good. */
  lemma BeginGood(stdout: string, err: bool, stderr: string, file: Option<seq<Category>>, saved: Values)
    requires Resolvable(LoadRepository(file))
    ensures Startup(stdout, err, stderr, file).Some?
    ensures SessionGood(Begin(Startup(stdout, err, stderr, file).value, saved))
  {
    StartupLoads(stdout, err, stderr, file);
  }

  // ---------------------------------------------------------------------------
  // Which category is selected
  // ---------------------------------------------------------------------------

  /** The outcome of reading `selected_category`: no category, a category
      (its title and catalog position), or a read that throws. */
  datatype Selection = Unselected | Broken | Selected(title: string, category: nat)

  /** As written: the selected value is compared with the length of the
      category list and used both as a position in that list (for the title)
      and as a catalog position (for the extensions). A negative value passes
      the comparison and throws when the catalog is read; an undefined list
      throws on its length. */
  function SelectAsWritten(list: Option<seq<CategoryChoice>>, idx: Option<int>): (r: Selection)
    ensures r == Broken <==> idx.Some? && (list.None? || idx.value < 0)
    ensures r.Selected? ==> list.Some? && idx.Some? && r.category == idx.value < |list.value|
                            && r.title == list.value[r.category].title
  {
    if idx.None? then Unselected
    else if list.None? then Broken
    else if idx.value < |list.value| then
      if idx.value < 0 then Broken else Selected(list.value[idx.value].title, idx.value)
    else Unselected
  }

  /** The position of the first offered category whose value is `idx`. */
  function FindChoice(list: seq<CategoryChoice>, idx: int): (k: nat)
    ensures k <= |list|
    ensures k < |list| ==> list[k].value == idx
    ensures k == |list| ==> forall x :: x in list ==> x.value != idx
  {
    if |list| == 0 then 0
    else if list[0].value == idx then 0
    else 1 + FindChoice(list[1..], idx)
  }

  /** Corrected: the selected value is the catalog position the category
      list offered; it is selected when some offered category carries it,
      with that category's title. An undefined list still throws. */
  function Select(list: Option<seq<CategoryChoice>>, idx: Option<int>): (r: Selection)
    ensures r == Broken <==> idx.Some? && list.None?
    ensures r.Selected? <==> idx.Some? && list.Some? && exists x :: x in list.value && x.value == idx.value
    ensures r.Selected? ==> CategoryChoice(r.title, r.category) in list.value && r.category == idx.value
  {
    if idx.None? then Unselected
    else if list.None? then Broken
    else
      var k := FindChoice(list.value, idx.value);
      if k < |list.value| then Selected(list.value[k].title, list.value[k].value) else Unselected
  }

  /** With the category list of a loaded catalog, the corrected selection
      picks exactly a category that has a display name, under that name. */
  lemma SelectChoices(repos: seq<Category>, i: int)
    ensures var r := Select(Some(CategoryChoices(repos, 0)), Some(i));
            && (r.Selected? <==> 0 <= i < |repos| && Truthy(repos[i].displayName))
            && (r.Selected? ==> r.category == i && Some(r.title) == repos[i].displayName)
  {
    var list := CategoryChoices(repos, 0);
    if 0 <= i < |repos| && Truthy(repos[i].displayName) {
      assert CategoryChoice(repos[i].displayName.value, i) in list;
    }
  }

  /** An installable catalog entry named `name`, fetched from GitHub. */
  function Plugin(name: string): Extension {
    Extension(Some(Repository(Some("https://github.com/o/" + name + ".git"))), Some(name), None, None, None)
  }

  /** As written, a category without a display name shifts the list against
      the catalog: of the categories "A" and "B" behind an unnamed one, "B"
      cannot be selected and selecting "A" shows its extensions under the
      title "B"; the corrected selection picks each under its own name. */
  lemma SelectAsWrittenShifts()
    ensures var repos := [Category(None, [Plugin("z")]), Category(Some("A"), [Plugin("a")]), Category(Some("B"), [Plugin("b")])];
            var list := Some(CategoryChoices(repos, 0));
            && list == Some([CategoryChoice("A", 1), CategoryChoice("B", 2)])
            && SelectAsWritten(list, Some(2)) == Unselected
            && SelectAsWritten(list, Some(1)) == Selected("B", 1)
            && repos[SelectAsWritten(list, Some(1)).category].extensions == [Plugin("a")]
            && Select(list, Some(2)) == Selected("B", 2)
            && Select(list, Some(1)) == Selected("A", 1)
  {
    var repos := [Category(None, [Plugin("z")]), Category(Some("A"), [Plugin("a")]), Category(Some("B"), [Plugin("b")])];
    assert CategoryChoices(repos, 3) == [];
    assert CategoryChoices(repos, 2) == [CategoryChoice("B", 2)];
    assert CategoryChoices(repos, 1) == [CategoryChoice("A", 1), CategoryChoice("B", 2)];
  }

  /** When every category from `from` on has a display name, the list offers
      them all, in order: its i-th choice is catalog position `from + i`. */
  lemma {:induction false} AllNamedChoices(repos: seq<Category>, from: nat)
    requires from <= |repos|
    requires forall c :: from <= c < |repos| ==> Truthy(repos[c].displayName)
    ensures var r := CategoryChoices(repos, from);
            && |r| == |repos| - from
            && forall i :: 0 <= i < |r| ==> r[i].value == from + i && repos[from + i].displayName == Some(r[i].title)
    decreases |repos| - from
  {
    if from < |repos| {
      AllNamedChoices(repos, from + 1);
      var rest := CategoryChoices(repos, from + 1);
      var r := CategoryChoices(repos, from);
      assert r == [CategoryChoice(repos[from].displayName.value, from)] + rest;
      forall i | 1 <= i < |r|
        ensures r[i].value == from + i && repos[from + i].displayName == Some(r[i].title)
      {
        assert r[i] == rest[i - 1];
      }
    }
  }

  /** The shift needs an unnamed category or a negative value: when every
      category has a display name, the selection as written agrees with the
      corrected one for every value that is not negative. */
  lemma SelectAgrees(repos: seq<Category>, idx: Option<int>)
    requires forall c :: 0 <= c < |repos| ==> Truthy(repos[c].displayName)
    requires idx.Some? ==> idx.value >= 0
    ensures var list := Some(CategoryChoices(repos, 0));
            SelectAsWritten(list, idx) == Select(list, idx)
  {
    var list := CategoryChoices(repos, 0);
    AllNamedChoices(repos, 0);
  }

  // ---------------------------------------------------------------------------
  // makelayout
  // ---------------------------------------------------------------------------

  /** The "Revert Action" entry offered for an extension with a pending action. */
  const RevertAction := ActionPair("Revert Action", ActionNoChange)

  /** What the dialog shows: the values after normalisation, the title of
      the extension dropdown, the extensions and actions offered, and the
      pending-actions label. */
  datatype Layout = Layout(
    values: Values,
    selectorTitle: Option<string>,
    extensions: seq<Choice>,
    offered: seq<ActionPair>,
    pending: string)

  datatype Shown = Shown(s: Session, l: Layout)

  /** Some listed extension has the name `name`; names compare with `==`, so
      an undefined name matches an undefined derived name. */
  predicate ListsName(choices: seq<Choice>, name: Option<string>) {
    exists i :: 0 <= i < |choices| && choices[i].value == name
  }

  /** `makelayout`, with the category selection as written (the title comes
      from the category list, the extensions from the catalog position):
      without a selected category both selections are cleared; with one, its
      extensions are listed (caching their names), and a selected extension
      that is not listed is cleared; a listed one is offered "Revert Action"
      alone when an action is pending for it and its actions otherwise, and
      those become the current action list. `None` where the program throws. */
  function MakeLayout(s: Session, v: Values): (r: Option<Shown>)
    requires Resolvable(s.installer.repos)
    ensures r.Some? ==> && r.value.s.installer == s.installer.(cache := r.value.s.installer.cache)
                        && s.installer.cache.Keys <= r.value.s.installer.cache.Keys
                        && r.value.s.queue == s.queue && r.value.s.saved == s.saved
                        && r.value.s.categoryList == s.categoryList
                        && r.value.l.pending == Describe(s.queue)
    ensures r.Some? && !SelectAsWritten(s.categoryList, v.selectedCategory).Selected? ==>
              && r.value.l.values == v.(selectedCategory := None, selectedExtension := None)
              && r.value.l.extensions == [] && r.value.l.offered == [] && r.value.s == s
    ensures r.Some? && SelectAsWritten(s.categoryList, v.selectedCategory).Selected? ==>
              var sel := SelectAsWritten(s.categoryList, v.selectedCategory);
              && sel.category < |s.installer.repos|
              && r.value.l.values.selectedCategory == v.selectedCategory
              && r.value.l.selectorTitle == Some(sel.title + " Extension")
              && r.value.l.extensions == r.value.s.extensionList
                 == ExtensionsByCategory(s.installer.repos, s.installer.cache, sel.category).choices
    ensures r.Some? ==> r.value.l.values.action == v.action
    ensures r.Some? ==>
              (r.value.l.values.selectedExtension.Some? <==>
                 SelectAsWritten(s.categoryList, v.selectedCategory).Selected? && v.selectedExtension.Some?
                 && ListsName(r.value.l.extensions, v.selectedExtension))
    ensures r.Some? && r.value.l.values.selectedExtension.Some? ==>
              && r.value.l.values == v
              && r.value.s.actionList == r.value.l.offered
              && (IsPending(s.queue, v.selectedExtension) ==> r.value.l.offered == [RevertAction])
              && (!IsPending(s.queue, v.selectedExtension) ==>
                    r.value.l.offered == GetActions(s.installer.record, s.installer.runner, v.selectedExtension.value))
    ensures r.Some? && r.value.l.values.selectedExtension.None? ==>
              r.value.l.offered == [] && r.value.s.actionList == s.actionList
  {
    var m := s.installer;
    var pending := Describe(s.queue);
    match SelectAsWritten(s.categoryList, v.selectedCategory)
    case Broken => None
    case Unselected =>
      Some(Shown(s, Layout(v.(selectedCategory := None, selectedExtension := None), None, [], [], pending)))
    case Selected(title, c) =>
      if c >= |m.repos| then None
      else
        var listing := ExtensionsByCategory(m.repos, m.cache, c);
        var listed := s.(installer := m.(cache := listing.cache), extensionList := listing.choices);
        var selectorTitle := Some(title + " Extension");
        if v.selectedExtension.None? || !ListsName(listing.choices, v.selectedExtension) then
          Some(Shown(listed, Layout(v.(selectedExtension := None), selectorTitle, listing.choices, [], pending)))
        else
          var details := Details(m.repos, listing.cache, v.selectedExtension);
          if details.0.None? then None
          else
            var offered := if IsPending(s.queue, v.selectedExtension) then [RevertAction]
                           else GetActions(m.record, m.runner, v.selectedExtension.value);
            Some(Shown(listed.(installer := m.(cache := details.1), actionList := offered),
                       Layout(v, selectorTitle, listing.choices, offered, pending)))
  }

  /** In a good session the layout throws only when a category is selected
      while the category list is undefined (after an empty catalog) or the
      selected value is negative, and it keeps the session good. */
  lemma MakeLayoutGood(s: Session, v: Values)
    requires SessionGood(s)
    ensures var r := MakeLayout(s, v);
            && (r.None? <==> v.selectedCategory.Some? && (s.categoryList.None? || v.selectedCategory.value < 0))
            && (r.Some? ==> SessionGood(r.value.s))
  {
    var m := s.installer;
    var sel := SelectAsWritten(s.categoryList, v.selectedCategory);
    if sel.Selected? {
      var c := sel.category;
      assert c < |s.categoryList.value| <= |m.repos|;
      var listing := ExtensionsByCategory(m.repos, m.cache, c);
      ListingContents(m.repos, m.cache, c);
      if v.selectedExtension.Some? && ListsName(listing.choices, v.selectedExtension) {
        ListedHasDetails(m.repos, m.cache, c, v.selectedExtension);
      }
    }
  }

  /** An extension a category lists has details, and reading them keeps the
      index cache valid. */
  lemma ListedHasDetails(repos: seq<Category>, cache: Cache, c: nat, name: Option<string>)
    requires CacheValid(repos, cache) && c < |repos|
    requires ListsName(ExtensionsByCategory(repos, cache, c).choices, name)
    ensures var listing := ExtensionsByCategory(repos, cache, c);
            && Details(repos, listing.cache, name).0.Some?
            && CacheValid(repos, Details(repos, listing.cache, name).1)
  {
    var listing := ExtensionsByCategory(repos, cache, c);
    ListingContents(repos, cache, c);
    var i :| 0 <= i < |listing.choices| && listing.choices[i].value == name;
    assert listing.choices[i] in listing.choices;
    var k :| 0 <= k < |repos[c].extensions| && Truthy(repos[c].extensions[k].displayName)
             && listing.choices[i] == Listed(repos, c, k);
    assert Coerce(name) in listing.cache;
    DetailsSound(repos, listing.cache, name);
  }

  // ---------------------------------------------------------------------------
  // get_settings and save_settings
  // ---------------------------------------------------------------------------

  /** `get_settings`: the queue is emptied, then the saved values are laid
      out; the layout normalises the saved values in place. */
  function GetSettings(s: Session): (r: Option<Shown>)
    requires Resolvable(s.installer.repos)
    ensures r.Some? ==> r.value.s.queue == [] && r.value.l.pending == "(none)"
    ensures r.Some? ==> r.value.s.saved == r.value.l.values
    ensures r.Some? ==> forall n :: !IsPending(r.value.s.queue, n)
  {
    match MakeLayout(s.(queue := []), s.saved)
    case None => None
    case Some(shown) => Some(shown.(s := shown.s.(saved := shown.l.values)))
  }

  /** `save_settings`: the submitted values update the queue and are laid
      out; unless this is a dry run, the laid-out values are saved and the
      queue is performed. The layout is built before the queue is performed,
      so its label lists the actions that are then performed. `None` where
      the program throws. */
  method SaveSettings(s: Session, v: Values, dryRun: bool) returns (r: Option<Shown>)
    requires SessionGood(s)
    ensures r.Some? ==>
              && UpdatePending(s.installer.repos, s.installer.cache, s.queue, s.actionList, v).Some?
              && r.value.l.values.action.None?
    ensures r.Some? && dryRun ==> r.value.s.saved == s.saved
    ensures r.Some? && !dryRun ==> r.value.s.queue == [] && r.value.s.saved == r.value.l.values
    ensures r.Some? && !dryRun ==>
              var staged := UpdatePending(s.installer.repos, s.installer.cache, s.queue, s.actionList, v).value;
              var laid := MakeLayout(s.(installer := s.installer.(cache := staged.cache), queue := staged.queue), staged.values);
              && laid.Some?
              && r.value.l == laid.value.l
              && Some(r.value.s.installer) == PerformAll(laid.value.s.installer, staged.queue)
    ensures r.Some? ==> SessionGood(r.value.s)
  {
    var m := s.installer;
    var staged := UpdatePending(m.repos, m.cache, s.queue, s.actionList, v);
    if staged.None? {
      return None;
    }
    var st := staged.value;
    if v.action.Some? && v.action.value != ActionNoChange && Offered(s.actionList, v.action.value) {
      DetailsSound(m.repos, m.cache, v.selectedExtension);
    }
    var updated := s.(installer := m.(cache := st.cache), queue := st.queue);
    assert SessionGood(updated);
    var laid := MakeLayout(updated, st.values);
    MakeLayoutGood(updated, st.values);
    if laid.None? {
      return None;
    }
    var shown := laid.value;
    if dryRun {
      return Some(shown);
    }
    var saving := shown.s.(saved := shown.l.values);
    var done, left := PerformPending(saving.installer, saving.queue);
    if done.None? {
      return None;
    }
    PerformAllKeeps(saving.installer, saving.queue);
    return Some(Shown(saving.(installer := done.value, queue := left), shown.l));
  }

  /** Performing actions leaves the catalog and the index cache alone. */
  lemma {:induction false} PerformAllKeeps(m: Manager, entries: Queue)
    requires PerformAll(m, entries).Some?
    ensures PerformAll(m, entries).value.repos == m.repos
    ensures PerformAll(m, entries).value.cache == m.cache
    decreases |entries|
  {
    if |entries| > 0 {
      var e := entries[0];
      var m' := Perform(m, e.value.action, e.key).value;
      PerformKeeps(m, e.value.action, e.key);
      PerformAllKeeps(m', entries[1..]);
    }
  }

  /** One action leaves the catalog and the index cache alone. */
  lemma PerformKeeps(m: Manager, action: int, name: string)
    requires Perform(m, action, name).Some?
    ensures Perform(m, action, name).value.repos == m.repos
    ensures Perform(m, action, name).value.cache == m.cache
  {
  }
}
