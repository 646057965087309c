/** Admin modules (entries of the admin navigation) and the menu categories they are
    grouped under. */
module AdminModules {
  import opened Wrappers
  import Text

  /** The runtime class of an `IAdminModuleMenuCategory` implementation. The menu
      matches modules to categories by this class, never by title or order. */
  datatype CategoryType = CategoryType(className: string)

  /** A top-level admin menu category, with the class that implements it. */
  datatype MenuCategory = MenuCategory(
    categoryType: CategoryType,
    title: string,
    iconCssClass: string,
    order: int)

  /** `AdminModuleMenuPrimaryOrdering`. Only the members the modelled code sets are
      named; the enumeration itself is not part of this model. */
  datatype PrimaryOrdering = Tertiary | Last | OtherOrdering(name: string)

  /** An `IPermission`, treated as an opaque token. */
  datatype Permission = Permission(permissionCode: string)

  /** The concrete class of a module: `HiddenAdminModule`, or `AdminModule<T>` for a
      menu category class `T`. */
  datatype ModuleClass = HiddenModule | MenuModule(category: CategoryType)

  datatype AdminModule = AdminModule(
    moduleClass: ModuleClass,
    adminModuleCode: string,
    title: string,
    description: string,
    primaryOrdering: PrimaryOrdering,
    secondaryOrdering: int,
    url: Option<string>,
    restrictedToPermission: Option<Permission>)
  {
    /** `MenuCategoryType`: null for a hidden module, `typeof(T)` for `AdminModule<T>`. */
    function MenuCategoryType(): (r: Option<CategoryType>)
      ensures r.None? <==> moduleClass.HiddenModule?
      ensures moduleClass.MenuModule? ==> r == Some(moduleClass.category)
    {
      match moduleClass
      case HiddenModule => None
      case MenuModule(t) => Some(t)
    }

    /** The module's link when its URL begins, ignoring case, with `path`; null
        otherwise. Note the direction: the URL starts with the path. */
    function GetMenuLinkByPath(path: string): (r: Option<string>)
      ensures r.None? || r == url
      ensures r.Some? <==> url.Some? && Text.IsPrefixIgnoringCase(path, url.value)
    {
      if url.Some? && Text.StartsWithIgnoreCase(url.value, path) then url else None
    }
  }

  /** A module without a URL matches no path; the empty path matches every module that
      has one. */
  lemma MenuLinkEdgeCases(m: AdminModule, path: string)
    ensures m.url.None? ==> m.GetMenuLinkByPath(path).None?
    ensures m.url.Some? ==> m.GetMenuLinkByPath("") == m.url
  {
  }

  /** Matching ignores the case of the path and of the URL. */
  lemma MenuLinkCaseInvariant(m: AdminModule, path: string)
    ensures m.GetMenuLinkByPath(Text.Lower(path)) == m.GetMenuLinkByPath(path)
    ensures m.GetMenuLinkByPath(Text.Fold(path)) == m.GetMenuLinkByPath(path)
    ensures m.url.Some? ==>
      m.(url := Some(Text.Lower(m.url.value))).GetMenuLinkByPath(path).Some?
        == m.GetMenuLinkByPath(path).Some?
  {
    Text.StartsWithCaseInvariant(Text.Lower(path), path);
    if m.url.Some? {
      Text.StartsWithCaseInvariant(m.url.value, path);
    }
  }

  /** Fixtures: the menu categories the system and its sample site register. */
  const ContentCategory := MenuCategory(CategoryType("ContentAdminModuleMenuCategory"), "Content", "fa fa-pencil", 100)
  const ShopCategory := MenuCategory(CategoryType("ShopAdminModuleMenuCategory"), "Shop", "fa fa-shopping-cart", 150)
  const SettingsCategory := MenuCategory(CategoryType("SettingsAdminModuleMenuCategory"), "Settings", "fa fa-cog", 200)

  /** The "My Account" module, listed under Settings; `detailsUrl` is the account route. */
  function AccountModule(detailsUrl: string): (m: AdminModule)
    ensures m.MenuCategoryType() == Some(SettingsCategory.categoryType)
    ensures m.GetMenuLinkByPath(detailsUrl) == Some(detailsUrl)
  {
    AdminModule(MenuModule(SettingsCategory.categoryType), "COFACC", "My Account",
      "Manage your user account.", Last, 0, Some(detailsUrl), None)
  }

  /** The URL must begin with the path, not the other way round: a request for a page
      below a module's URL does not select that module. */
  lemma MenuLinkDirection()
    ensures AccountModule("/admin/account").GetMenuLinkByPath("/ADMIN/acc") == Some("/admin/account")
    ensures AccountModule("/admin/account").GetMenuLinkByPath("/admin/account/edit").None?
  {
    assert Text.IsPrefixIgnoringCase("/ADMIN/acc", "/admin/account");
  }
}
