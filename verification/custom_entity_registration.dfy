/** Registration of one admin module per custom entity definition. */
module CustomEntityRegistration {
  import opened Wrappers
  import opened AdminModules

  /** The parts of `ICustomEntityDefinition` the registration reads. */
  datatype CustomEntityDefinition = CustomEntityDefinition(
    customEntityDefinitionCode: string,
    name: string,
    namePlural: string,
    description: string,
    adminModuleMenuCategoryType: Option<CategoryType>)

  /** The module built for one definition: hidden when the definition names no menu
      category, `AdminModule<T>` for its category class `T` otherwise. `listUrl` stands
      for the admin route library's list URL and `permissionFor` for the construction
      of `CustomEntityAdminModulePermission`; both are functions of the definition. */
  function ModuleFor(
    definition: CustomEntityDefinition,
    listUrl: CustomEntityDefinition -> string,
    permissionFor: CustomEntityDefinition -> Permission): (m: AdminModule)
    ensures m.MenuCategoryType() == definition.adminModuleMenuCategoryType
    ensures m.moduleClass.HiddenModule? <==> definition.adminModuleMenuCategoryType.None?
    ensures m.adminModuleCode == definition.customEntityDefinitionCode
    ensures m.title == definition.namePlural && m.description == definition.description
    ensures m.primaryOrdering == Tertiary
    ensures m.url == Some(listUrl(definition)) && m.restrictedToPermission == Some(permissionFor(definition))
  {
    var moduleClass :=
      match definition.adminModuleMenuCategoryType
      case None => HiddenModule
      case Some(t) => MenuModule(t);
    AdminModule(
      moduleClass,
      definition.customEntityDefinitionCode,
      definition.namePlural,
      definition.description,
      Tertiary,
      0,
      Some(listUrl(definition)),
      Some(permissionFor(definition)))
  }

  /** `GetModules`: one module per definition, in definition order, each carrying the
      definition's code, plural name, description and menu category. */
  function GetModules(
    definitions: seq<CustomEntityDefinition>,
    listUrl: CustomEntityDefinition -> string,
    permissionFor: CustomEntityDefinition -> Permission): (modules: seq<AdminModule>)
    ensures |modules| == |definitions|
    ensures forall i :: 0 <= i < |definitions| ==>
      modules[i].MenuCategoryType() == definitions[i].adminModuleMenuCategoryType
    ensures forall i :: 0 <= i < |definitions| ==>
      (modules[i].moduleClass.HiddenModule? <==> definitions[i].adminModuleMenuCategoryType.None?)
    ensures forall i :: 0 <= i < |definitions| ==>
      && modules[i].adminModuleCode == definitions[i].customEntityDefinitionCode
      && modules[i].title == definitions[i].namePlural
      && modules[i].description == definitions[i].description
    ensures forall i :: 0 <= i < |definitions| ==>
      modules[i].primaryOrdering == Tertiary && modules[i].secondaryOrdering == 0
    ensures forall i :: 0 <= i < |definitions| ==>
      && modules[i].url == Some(listUrl(definitions[i]))
      && modules[i].restrictedToPermission == Some(permissionFor(definitions[i]))
  {
    if definitions == [] then []
    else [ModuleFor(definitions[0], listUrl, permissionFor)]
         + GetModules(definitions[1..], listUrl, permissionFor)
  }

  /** Registering definitions in two batches gives the modules of each batch in turn. */
  lemma {:induction false} GetModulesAppend(
    a: seq<CustomEntityDefinition>, b: seq<CustomEntityDefinition>,
    listUrl: CustomEntityDefinition -> string,
    permissionFor: CustomEntityDefinition -> Permission)
    ensures GetModules(a + b, listUrl, permissionFor)
            == GetModules(a, listUrl, permissionFor) + GetModules(b, listUrl, permissionFor)
  {
    if a != [] {
      GetModulesAppend(a[1..], b, listUrl, permissionFor);
      assert (a + b)[1..] == a[1..] + b;
    }
  }

  /** Fixture: the sample site's example definition, listed under Content. */
  const ExampleDefinition := CustomEntityDefinition(
    "SIMEXA", "Example", "Examples", "Example data.", Some(ContentCategory.categoryType))

  lemma ExampleModule(listUrl: CustomEntityDefinition -> string, permissionFor: CustomEntityDefinition -> Permission)
    ensures GetModules([ExampleDefinition], listUrl, permissionFor)[0].MenuCategoryType()
            == Some(ContentCategory.categoryType)
    ensures GetModules([ExampleDefinition], listUrl, permissionFor)[0].title == "Examples"
  {
  }
}
