/** The admin menu view component: orders the registered menu categories, groups the
    modules the user may see under them, and works out which module and category the
    current request path belongs to. */
module AdminMenu {
  import opened Wrappers
  import opened Sequences
  import opened Sorting
  import opened AdminModules

  /** `AdminMenuCategoryViewModel`. */
  datatype MenuCategoryView = MenuCategoryView(category: MenuCategory, modules: seq<AdminModule>)

  /** `AdminMenuViewModel`. */
  datatype AdminMenuView = AdminMenuView(
    categories: seq<MenuCategoryView>,
    selectedCategory: Option<MenuCategory>,
    selectedModule: Option<AdminModule>)

  /** How the component as written can fail instead of rendering. */
  datatype MenuFailure = NullReference

  function CategoryOrder(c: MenuCategory): int
  {
    c.order
  }

  function CategoriesOf(views: seq<MenuCategoryView>): (r: seq<MenuCategory>)
    ensures |r| == |views|
    ensures forall i :: 0 <= i < |views| ==> r[i] == views[i].category
  {
    if views == [] then [] else [views[0].category] + CategoriesOf(views[1..])
  }

  /** The permitted modules whose menu category class is the category's class. */
  function ModulesOfCategory(permitted: seq<AdminModule>, category: MenuCategory): (r: seq<AdminModule>)
    ensures IsSubsequence(r, permitted)
    ensures forall i :: 0 <= i < |r| ==> r[i].MenuCategoryType() == Some(category.categoryType)
  {
    Filter(permitted, (m: AdminModule) => m.MenuCategoryType() == Some(category.categoryType))
  }

  /** A category's modules hold every copy of each permitted module of its class and
      nothing else. */
  lemma ModulesOfCategoryCount(permitted: seq<AdminModule>, category: MenuCategory, m: AdminModule)
    ensures multiset(ModulesOfCategory(permitted, category))[m]
            == (if m.MenuCategoryType() == Some(category.categoryType) then multiset(permitted)[m] else 0)
  {
    FilterCount(permitted, (m: AdminModule) => m.MenuCategoryType() == Some(category.categoryType), m);
  }

  /** Whether a category has at least one permitted module, the test that decides
      whether the loop lists it. */
  function HasModulesIn(permitted: seq<AdminModule>): MenuCategory -> bool
  {
    (c: MenuCategory) => |ModulesOfCategory(permitted, c)| > 0
  }

  /** `SetStandardOrdering` is not part of this model; all that is assumed of it is
      that it reorders the modules it is given. */
  ghost predicate IsReordering(standardOrdering: seq<AdminModule> -> seq<AdminModule>)
  {
    forall ms :: multiset(standardOrdering(ms)) == multiset(ms)
  }

  /** What the loop over the sorted categories promises: each kept category has at
      least one module, its modules are its permitted modules reordered, the kept
      categories are a subsequence of the sorted ones, and a category is kept exactly
      when it has a module: the kept categories are the sorted ones filtered by that
      test, duplicates included. */
  ghost predicate BuiltFrom(r: seq<MenuCategoryView>, sorted: seq<MenuCategory>, permitted: seq<AdminModule>)
  {
    && (forall i :: 0 <= i < |r| ==> |r[i].modules| > 0)
    && (forall i :: 0 <= i < |r| ==>
          multiset(r[i].modules) == multiset(ModulesOfCategory(permitted, r[i].category)))
    && IsSubsequence(CategoriesOf(r), sorted)
    && (forall i :: 0 <= i < |sorted| ==>
          (sorted[i] in CategoriesOf(r) <==> |ModulesOfCategory(permitted, sorted[i])| > 0))
    && CategoriesOf(r) == Filter(sorted, HasModulesIn(permitted))
  }

  /** The loop over the sorted categories: each category gets its modules, and only
      categories with at least one module are kept. */
  function BuildCategories(
    sorted: seq<MenuCategory>,
    permitted: seq<AdminModule>,
    standardOrdering: seq<AdminModule> -> seq<AdminModule>): (r: seq<MenuCategoryView>)
    requires IsReordering(standardOrdering)
    ensures BuiltFrom(r, sorted, permitted)
  {
    if sorted == [] then []
    else
      var modules := standardOrdering(ModulesOfCategory(permitted, sorted[0]));
      var rest := BuildCategories(sorted[1..], permitted, standardOrdering);
      var r := if |modules| > 0 then [MenuCategoryView(sorted[0], modules)] + rest else rest;
      BuildStep(sorted, permitted, modules, rest, r);
      r
  }

  lemma {:induction false} BuildStep(
    sorted: seq<MenuCategory>,
    permitted: seq<AdminModule>,
    modules: seq<AdminModule>,
    rest: seq<MenuCategoryView>,
    r: seq<MenuCategoryView>)
    requires sorted != []
    requires multiset(modules) == multiset(ModulesOfCategory(permitted, sorted[0]))
    requires BuiltFrom(rest, sorted[1..], permitted)
    requires r == if |modules| > 0 then [MenuCategoryView(sorted[0], modules)] + rest else rest
    ensures BuiltFrom(r, sorted, permitted)
  {
    assert |modules| == |ModulesOfCategory(permitted, sorted[0])| by {
      assert |multiset(modules)| == |modules|;
      assert |multiset(ModulesOfCategory(permitted, sorted[0]))| == |ModulesOfCategory(permitted, sorted[0])|;
    }
    if |modules| > 0 {
      KeepStep(sorted, permitted, modules, rest);
    } else {
      SkipStep(sorted, permitted, rest);
    }
  }

  lemma {:induction false} KeepStep(
    sorted: seq<MenuCategory>,
    permitted: seq<AdminModule>,
    modules: seq<AdminModule>,
    rest: seq<MenuCategoryView>)
    requires sorted != [] && |modules| > 0
    requires multiset(modules) == multiset(ModulesOfCategory(permitted, sorted[0]))
    requires BuiltFrom(rest, sorted[1..], permitted)
    ensures BuiltFrom([MenuCategoryView(sorted[0], modules)] + rest, sorted, permitted)
  {
    var r := [MenuCategoryView(sorted[0], modules)] + rest;
    assert r[1..] == rest;
    assert CategoriesOf(r) == [sorted[0]] + CategoriesOf(rest);
    assert HasModulesIn(permitted)(sorted[0]) by {
      assert |multiset(modules)| == |modules|;
    }
    KeepFilterStep(sorted, HasModulesIn(permitted), CategoriesOf(rest));
    FilteredMembers(sorted, permitted, CategoriesOf(r));
    forall i | 0 <= i < |r|
      ensures |r[i].modules| > 0
      ensures multiset(r[i].modules) == multiset(ModulesOfCategory(permitted, r[i].category))
    {
      if i > 0 {
        assert r[i] == rest[i - 1];
      }
    }
  }

  /** Membership in the filtered categories is the filter's test. */
  lemma FilteredMembers(sorted: seq<MenuCategory>, permitted: seq<AdminModule>, kept: seq<MenuCategory>)
    requires kept == Filter(sorted, HasModulesIn(permitted))
    ensures IsSubsequence(kept, sorted)
    ensures forall i :: 0 <= i < |sorted| ==>
      (sorted[i] in kept <==> |ModulesOfCategory(permitted, sorted[i])| > 0)
  {
    forall i | 0 <= i < |sorted|
      ensures sorted[i] in kept <==> |ModulesOfCategory(permitted, sorted[i])| > 0
    {
      if sorted[i] in kept {
        var j :| 0 <= j < |kept| && kept[j] == sorted[i];
        assert HasModulesIn(permitted)(kept[j]);
      } else {
        assert !HasModulesIn(permitted)(sorted[i]);
      }
    }
  }

  lemma KeepFilterStep(sorted: seq<MenuCategory>, keep: MenuCategory -> bool, rest: seq<MenuCategory>)
    requires sorted != [] && keep(sorted[0])
    requires rest == Filter(sorted[1..], keep)
    ensures [sorted[0]] + rest == Filter(sorted, keep)
  {
  }

  lemma {:induction false} SkipStep(
    sorted: seq<MenuCategory>,
    permitted: seq<AdminModule>,
    rest: seq<MenuCategoryView>)
    requires sorted != [] && |ModulesOfCategory(permitted, sorted[0])| == 0
    requires BuiltFrom(rest, sorted[1..], permitted)
    ensures BuiltFrom(rest, sorted, permitted)
  {
    SubsequenceSkip(CategoriesOf(rest), sorted);
    assert !HasModulesIn(permitted)(sorted[0]);
    forall j | 0 <= j < |rest|
      ensures rest[j].category != sorted[0]
    {
      assert |multiset(rest[j].modules)| == |rest[j].modules|;
    }
    forall i | 0 <= i < |sorted|
      ensures sorted[i] in CategoriesOf(rest) <==> |ModulesOfCategory(permitted, sorted[i])| > 0
    {
      if i > 0 {
        assert sorted[i] == sorted[1..][i - 1];
      }
    }
  }

  /** The index of the first permitted module, in query order, whose link matches the
      request path. */
  function SelectedModuleIndex(permitted: seq<AdminModule>, path: string): (r: Option<nat>)
    ensures r.Some? ==> r.value < |permitted| && permitted[r.value].GetMenuLinkByPath(path).Some?
    ensures r.Some? ==> forall j :: 0 <= j < r.value ==> permitted[j].GetMenuLinkByPath(path).None?
    ensures r.None? <==> forall j :: 0 <= j < |permitted| ==> permitted[j].GetMenuLinkByPath(path).None?
  {
    FirstIndex(permitted, (m: AdminModule) => m.GetMenuLinkByPath(path).Some?)
  }

  /** The first category, in sorted order, whose class is `categoryType`. */
  function SelectedCategory(sorted: seq<MenuCategory>, categoryType: Option<CategoryType>): (r: Option<MenuCategory>)
    ensures r.Some? ==> Some(r.value.categoryType) == categoryType
    ensures r.Some? ==> exists i :: (0 <= i < |sorted| && sorted[i] == r.value
      && forall j :: 0 <= j < i ==> sorted[j].categoryType != r.value.categoryType)
    ensures r.None? <==> forall j :: 0 <= j < |sorted| ==> Some(sorted[j].categoryType) != categoryType
  {
    match FirstIndex(sorted, (c: MenuCategory) => Some(c.categoryType) == categoryType)
    case None => None
    case Some(i) => Some(sorted[i])
  }

  /** `InvokeAsync` as written: when no permitted module matches the path the selected
      item is null, and reading its category type throws before the null check that
      follows it is reached. */
  function InvokeAsWritten(
    registered: seq<MenuCategory>,
    permitted: seq<AdminModule>,
    path: string,
    standardOrdering: seq<AdminModule> -> seq<AdminModule>): (r: Result<AdminMenuView, MenuFailure>)
    requires IsReordering(standardOrdering)
    ensures r.Failure? <==> forall i :: 0 <= i < |permitted| ==> permitted[i].GetMenuLinkByPath(path).None?
    ensures r.Success? ==> r.value == Invoke(registered, permitted, path, standardOrdering)
  {
    var sorted := SortByKey(registered, CategoryOrder);
    var categories := MenuCategories(registered, permitted, standardOrdering);
    match SelectedModuleIndex(permitted, path)
    case None => Failure(NullReference)
    case Some(i) =>
      var selected := permitted[i];
      Success(AdminMenuView(categories, SelectedCategory(sorted, selected.MenuCategoryType()), Some(selected)))
  }

  /** The categories the menu lists (the ordering and the loop over the categories):
      the registered categories in `Order`, each with its permitted modules, keeping
      only those that have one. */
  function MenuCategories(
    registered: seq<MenuCategory>,
    permitted: seq<AdminModule>,
    standardOrdering: seq<AdminModule> -> seq<AdminModule>): (r: seq<MenuCategoryView>)
    requires IsReordering(standardOrdering)
    // categories come in non-decreasing order, and equal orders keep registration order
    ensures SortedBy(CategoriesOf(r), CategoryOrder)
    ensures forall k :: IsSubsequence(WithKey(CategoriesOf(r), CategoryOrder, k),
                                      WithKey(registered, CategoryOrder, k))
    ensures |r| <= |registered|
    // a category is shown exactly when some permitted module belongs to it
    ensures forall i :: 0 <= i < |r| ==> |r[i].modules| > 0
    ensures forall i :: 0 <= i < |registered| ==>
      (registered[i] in CategoriesOf(r) <==> |ModulesOfCategory(permitted, registered[i])| > 0)
    ensures forall i :: 0 <= i < |r| ==> r[i].category in registered
    // its modules are exactly the permitted modules of that class, in some order
    ensures forall i :: 0 <= i < |r| ==>
      multiset(r[i].modules) == multiset(ModulesOfCategory(permitted, r[i].category))
    ensures forall i, j :: 0 <= i < |r| && 0 <= j < |r[i].modules| ==>
      r[i].modules[j] in permitted
      && r[i].modules[j].MenuCategoryType() == Some(r[i].category.categoryType)
  {
    var sorted := SortByKey(registered, CategoryOrder);
    var categories := BuildCategories(sorted, permitted, standardOrdering);
    MenuOrderFacts(registered, sorted, categories, permitted);
    categories
  }

  /** A registered category is listed as often as it is registered when it has a
      permitted module, and not at all otherwise. */
  lemma MenuCategoriesCount(
    registered: seq<MenuCategory>,
    permitted: seq<AdminModule>,
    standardOrdering: seq<AdminModule> -> seq<AdminModule>)
    requires IsReordering(standardOrdering)
    ensures ListedAsRegistered(MenuCategories(registered, permitted, standardOrdering), registered, permitted)
  {
    var sorted := SortByKey(registered, CategoryOrder);
    CategoryCounts(registered, sorted, BuildCategories(sorted, permitted, standardOrdering), permitted);
  }

  /** `InvokeAsync` with the null check taking effect: a path no module matches leaves
      the selection empty instead of failing. */
  function Invoke(
    registered: seq<MenuCategory>,
    permitted: seq<AdminModule>,
    path: string,
    standardOrdering: seq<AdminModule> -> seq<AdminModule>): (r: AdminMenuView)
    requires IsReordering(standardOrdering)
    // the selected module is the first permitted module whose link matches the path
    ensures r.selectedModule.None? <==>
      forall i :: 0 <= i < |permitted| ==> permitted[i].GetMenuLinkByPath(path).None?
    ensures r.selectedModule.Some? ==>
      exists i :: 0 <= i < |permitted| && permitted[i] == r.selectedModule.value
        && permitted[i].GetMenuLinkByPath(path).Some?
        && forall j :: 0 <= j < i ==> permitted[j].GetMenuLinkByPath(path).None?
    // the selected category is the first category, in menu order, of that module's class
    ensures r.selectedCategory.Some? ==>
      r.selectedModule.Some?
      && r.selectedCategory.value in registered
      && r.selectedModule.value.MenuCategoryType() == Some(r.selectedCategory.value.categoryType)
    ensures r.selectedCategory.Some? ==>
      var sorted := SortByKey(registered, CategoryOrder);
      exists i :: 0 <= i < |sorted| && sorted[i] == r.selectedCategory.value
        && forall j :: 0 <= j < i ==> sorted[j].categoryType != r.selectedCategory.value.categoryType
    ensures r.selectedModule.Some? && r.selectedCategory.None? ==>
      forall i :: 0 <= i < |registered| ==>
        r.selectedModule.value.MenuCategoryType() != Some(registered[i].categoryType)
    // the listed categories are those of the ordering and the loop
    ensures r.categories == MenuCategories(registered, permitted, standardOrdering)
  {
    var sorted := SortByKey(registered, CategoryOrder);
    var categories := MenuCategories(registered, permitted, standardOrdering);
    var selectedIndex := SelectedModuleIndex(permitted, path);
    var selectedModule := match selectedIndex case None => None case Some(i) => Some(permitted[i]);
    var selectedCategory :=
      match selectedModule
      case None => None
      case Some(m) => SelectedCategory(sorted, m.MenuCategoryType());
    SelectedCategoryFacts(registered, sorted, selectedModule, selectedCategory);
    AdminMenuView(categories, selectedCategory, selectedModule)
  }

  lemma {:induction false} MenuOrderFacts(
    registered: seq<MenuCategory>,
    sorted: seq<MenuCategory>,
    categories: seq<MenuCategoryView>,
    permitted: seq<AdminModule>)
    requires sorted == SortByKey(registered, CategoryOrder)
    requires BuiltFrom(categories, sorted, permitted)
    ensures SortedBy(CategoriesOf(categories), CategoryOrder)
    ensures forall k :: IsSubsequence(WithKey(CategoriesOf(categories), CategoryOrder, k),
                                      WithKey(registered, CategoryOrder, k))
    ensures |categories| <= |registered|
    ensures forall i :: 0 <= i < |registered| ==>
      (registered[i] in CategoriesOf(categories) <==> |ModulesOfCategory(permitted, registered[i])| > 0)
    ensures forall i :: 0 <= i < |categories| ==> categories[i].category in registered
    ensures forall i, j :: 0 <= i < |categories| && 0 <= j < |categories[i].modules| ==>
      categories[i].modules[j] in permitted
      && categories[i].modules[j].MenuCategoryType() == Some(categories[i].category.categoryType)
  {
    SubsequenceOfSortedIsSorted(CategoriesOf(categories), sorted, CategoryOrder);
    forall k
      ensures IsSubsequence(WithKey(CategoriesOf(categories), CategoryOrder, k),
                            WithKey(registered, CategoryOrder, k))
    {
      SubsequenceWithKey(CategoriesOf(categories), sorted, CategoryOrder, k);
    }
    SubsequenceMembers(CategoriesOf(categories), sorted);
    assert |sorted| == |registered| by {
      assert |multiset(sorted)| == |multiset(registered)|;
    }
    forall i | 0 <= i < |registered|
      ensures registered[i] in CategoriesOf(categories) <==> |ModulesOfCategory(permitted, registered[i])| > 0
    {
      assert registered[i] in multiset(sorted);
      var m :| 0 <= m < |sorted| && sorted[m] == registered[i];
    }
    forall i | 0 <= i < |categories|
      ensures categories[i].category in registered
    {
      assert CategoriesOf(categories)[i] in sorted;
      assert categories[i].category in multiset(sorted);
    }
    forall i, j | 0 <= i < |categories| && 0 <= j < |categories[i].modules|
      ensures categories[i].modules[j] in permitted
      ensures categories[i].modules[j].MenuCategoryType() == Some(categories[i].category.categoryType)
    {
      assert categories[i].modules[j] in multiset(ModulesOfCategory(permitted, categories[i].category));
    }
  }

  /** Each category is listed exactly as many times as it is registered when it has a
      permitted module, and not at all otherwise. */
  ghost predicate ListedAsRegistered(
    views: seq<MenuCategoryView>, registered: seq<MenuCategory>, permitted: seq<AdminModule>)
  {
    forall c :: multiset(CategoriesOf(views))[c] ==
      (if |ModulesOfCategory(permitted, c)| > 0 then multiset(registered)[c] else 0)
  }

  lemma CategoryCounts(
    registered: seq<MenuCategory>,
    sorted: seq<MenuCategory>,
    categories: seq<MenuCategoryView>,
    permitted: seq<AdminModule>)
    requires sorted == SortByKey(registered, CategoryOrder)
    requires BuiltFrom(categories, sorted, permitted)
    ensures ListedAsRegistered(categories, registered, permitted)
  {
    forall c
      ensures multiset(CategoriesOf(categories))[c] ==
        (if |ModulesOfCategory(permitted, c)| > 0 then multiset(registered)[c] else 0)
    {
      FilterCount(sorted, HasModulesIn(permitted), c);
    }
  }

  lemma {:induction false} SelectedCategoryFacts(
    registered: seq<MenuCategory>,
    sorted: seq<MenuCategory>,
    selectedModule: Option<AdminModule>,
    selectedCategory: Option<MenuCategory>)
    requires sorted == SortByKey(registered, CategoryOrder)
    requires selectedCategory ==
      match selectedModule
      case None => None
      case Some(m) => SelectedCategory(sorted, m.MenuCategoryType())
    ensures selectedCategory.Some? ==>
      selectedModule.Some?
      && selectedCategory.value in registered
      && selectedModule.value.MenuCategoryType() == Some(selectedCategory.value.categoryType)
    ensures selectedCategory.Some? ==>
      exists i :: 0 <= i < |sorted| && sorted[i] == selectedCategory.value
        && forall j :: 0 <= j < i ==> sorted[j].categoryType != selectedCategory.value.categoryType
    ensures selectedModule.Some? && selectedCategory.None? ==>
      forall i :: 0 <= i < |registered| ==>
        selectedModule.value.MenuCategoryType() != Some(registered[i].categoryType)
  {
    if selectedModule.Some? {
      var t := selectedModule.value.MenuCategoryType();
      if selectedCategory.Some? {
        assert selectedCategory.value in sorted;
        assert selectedCategory.value in multiset(registered);
      } else {
        forall i | 0 <= i < |registered|
          ensures t != Some(registered[i].categoryType)
        {
          assert registered[i] in multiset(sorted);
          var m :| 0 <= m < |sorted| && sorted[m] == registered[i];
        }
      }
    }
  }

  /** A permitted module whose class is a registered category is listed under that
      category. */
  lemma ModuleListedUnderItsCategory(
    registered: seq<MenuCategory>,
    permitted: seq<AdminModule>,
    path: string,
    standardOrdering: seq<AdminModule> -> seq<AdminModule>,
    m: AdminModule,
    category: MenuCategory)
    requires IsReordering(standardOrdering)
    requires m in permitted && category in registered
    requires m.MenuCategoryType() == Some(category.categoryType)
    ensures var menu := Invoke(registered, permitted, path, standardOrdering);
      exists i :: 0 <= i < |menu.categories| && menu.categories[i].category == category
        && m in menu.categories[i].modules
  {
    var menu := Invoke(registered, permitted, path, standardOrdering);
    var own := ModulesOfCategory(permitted, category);
    assert m in own;
    var k :| 0 <= k < |registered| && registered[k] == category;
    assert category in CategoriesOf(menu.categories);
    var i :| 0 <= i < |menu.categories| && CategoriesOf(menu.categories)[i] == category;
    assert m in multiset(menu.categories[i].modules);
  }

  /** The selected category is always one of the categories the menu shows. */
  lemma SelectedCategoryIsShown(
    registered: seq<MenuCategory>,
    permitted: seq<AdminModule>,
    path: string,
    standardOrdering: seq<AdminModule> -> seq<AdminModule>)
    requires IsReordering(standardOrdering)
    ensures var menu := Invoke(registered, permitted, path, standardOrdering);
      menu.selectedCategory.Some? ==> menu.selectedCategory.value in CategoriesOf(menu.categories)
  {
    var menu := Invoke(registered, permitted, path, standardOrdering);
    if menu.selectedCategory.Some? {
      var c := menu.selectedCategory.value;
      var k :| 0 <= k < |registered| && registered[k] == c;
      assert menu.selectedModule.value in ModulesOfCategory(permitted, c);
    }
  }

  /** A hidden module is never listed, whatever its URL or permission. */
  lemma HiddenModuleNeverListed(
    registered: seq<MenuCategory>,
    permitted: seq<AdminModule>,
    path: string,
    standardOrdering: seq<AdminModule> -> seq<AdminModule>,
    m: AdminModule)
    requires IsReordering(standardOrdering)
    requires m.moduleClass.HiddenModule?
    ensures var menu := Invoke(registered, permitted, path, standardOrdering);
      forall i :: 0 <= i < |menu.categories| ==> m !in menu.categories[i].modules
  {
  }

  /** The defect, on a concrete request: the only permitted module is "My Account"
      and the request is for a pages URL. The component as written fails; the
      corrected one renders the Settings category with nothing selected. */
  lemma UnmatchedPathFailsAsWritten()
    ensures InvokeAsWritten([ContentCategory, SettingsCategory], [AccountModule("/admin/account")],
                            "/admin/pages", ms => ms).Failure?
    ensures var menu := Invoke([ContentCategory, SettingsCategory], [AccountModule("/admin/account")],
                               "/admin/pages", ms => ms);
      menu.selectedModule.None? && menu.selectedCategory.None?
      && menu.categories == [MenuCategoryView(SettingsCategory, [AccountModule("/admin/account")])]
  {
    AccountDoesNotMatchPages();
    FixtureMenuCategories();
  }

  lemma AccountDoesNotMatchPages()
    ensures AccountModule("/admin/account").GetMenuLinkByPath("/admin/pages").None?
  {
    assert Text.FoldChar("/admin/pages"[7]) != Text.FoldChar("/admin/account"[7]);
  }

  lemma FixtureMenuCategories()
    ensures BuildCategories(SortByKey([ContentCategory, SettingsCategory], CategoryOrder),
                            [AccountModule("/admin/account")], ms => ms)
            == [MenuCategoryView(SettingsCategory, [AccountModule("/admin/account")])]
  {
    var permitted := [AccountModule("/admin/account")];
    var registered := [ContentCategory, SettingsCategory];
    FixtureSortedTwo();
    FixtureModulesOfCategory();
    var std := (ms: seq<AdminModule>) => ms;
    assert BuildCategories([SettingsCategory], permitted, std)
           == [MenuCategoryView(SettingsCategory, permitted)] by {
      assert [SettingsCategory][1..] == [];
    }
    assert registered[1..] == [SettingsCategory];
  }

  lemma FixtureSortedTwo()
    ensures SortByKey([ContentCategory, SettingsCategory], CategoryOrder) == [ContentCategory, SettingsCategory]
  {
    SortSingle(ContentCategory);
    assert [ContentCategory, SettingsCategory][..1] == [ContentCategory];
  }

  lemma FixtureModulesOfCategory()
    ensures ModulesOfCategory([AccountModule("/admin/account")], ContentCategory) == []
    ensures ModulesOfCategory([AccountModule("/admin/account")], SettingsCategory) == [AccountModule("/admin/account")]
  {
    assert [AccountModule("/admin/account")][1..] == [];
  }

  lemma SortSingle(c: MenuCategory)
    ensures SortByKey([c], CategoryOrder) == [c]
  {
    assert [c][..0] == [];
  }

  /** The registered fixture categories come out in the order Content, Shop, Settings
      whatever order they were registered in. */
  lemma FixtureCategoryOrder()
    ensures SortByKey([SettingsCategory, ContentCategory, ShopCategory], CategoryOrder)
            == [ContentCategory, ShopCategory, SettingsCategory]
  {
    var registered := [SettingsCategory, ContentCategory, ShopCategory];
    FixtureSortedSettingsContent();
    FixtureInsertShop();
    assert registered[..2] == [SettingsCategory, ContentCategory];
  }

  lemma FixtureSortedSettingsContent()
    ensures SortByKey([SettingsCategory, ContentCategory], CategoryOrder) == [ContentCategory, SettingsCategory]
  {
    SortSingle(SettingsCategory);
    assert [SettingsCategory, ContentCategory][..1] == [SettingsCategory];
  }

  lemma FixtureInsertShop()
    ensures Insert([ContentCategory, SettingsCategory], ShopCategory, CategoryOrder)
            == [ContentCategory, ShopCategory, SettingsCategory]
  {
    assert [ContentCategory, SettingsCategory][1..] == [SettingsCategory];
  }
}
