# Cofoundry admin menu and API response helper, modelled in Dafny

This project models three parts of the Cofoundry CMS:

- **The admin navigation.**
  - Admin modules are the entries of the admin panel. Each is either a hidden module or an `AdminModule<T>` listed under the menu category class `T`.
  - `GetMenuLinkByPath` matches a module's URL against the request path. The URL must start with the path, ignoring ASCII case.
  - `CustomEntitiesAdminModuleRegistration` builds one module per custom entity definition.
  - `AdminMenuViewComponent.InvokeAsync` builds the menu:
    - it orders the registered categories by `Order`;
    - it lists each category together with its permitted modules, and drops categories that have none;
    - it selects the first module whose link matches the request path, and the category of that module.
- **The API response helper.**
  - It removes duplicate validation errors, keyed by message and joined property names.
  - It orders the errors by property key.
  - It maps outcomes to status codes:
    - 404 for a null query result;
    - 400 when there are errors;
    - 200 otherwise;
    - 403 for a permission failure.
  - It runs commands, actions and functions. Validation exceptions are turned into errors and a permission exception into a 403.
- **Generic support.**
  - A stable insertion sort that models LINQ `OrderBy`.
  - Filtering, subsequences, and first-match search.
  - ASCII case folding, which models `StringComparison.OrdinalIgnoreCase`.

Exceptions become data. A command, action or function ends in an `Outcome`: it completes, or it throws a validation exception, or it throws a not-permitted exception. The null dereference in the menu component becomes a `Result` failure.

Modules and files:

| module | file |
|---|---|
| `Wrappers` | `wrappers.dfy` |
| `Sequences` | `sequences.dfy` |
| `Sorting` | `sorting.dfy` |
| `Text` | `text.dfy` |
| `AdminModules` | `admin_module.dfy` |
| `CustomEntityRegistration` | `custom_entity_registration.dfy` |
| `AdminMenu` | `admin_menu.dfy` |
| `ValidationErrors` | `validation_errors.dfy` |
| `ApiResponses` | `api_response_helper.dfy` |

## Model

| member | source | states |
|---|---|---|
| AdminModules.AdminModule.MenuCategoryType | src/Cofoundry.Domain/Domain/AdminModules/Models/AdminModule.cs:58-73 | a hidden module has no menu category type; `AdminModule<T>` has exactly `T` |
| AdminModules.AdminModule.GetMenuLinkByPath | src/Cofoundry.Domain/Domain/AdminModules/Models/AdminModule.cs:43-51 | the result is the module's own URL or null, and it is the URL exactly when a URL is set and begins with the path ignoring case (the reference predicate compares folded characters position by position) |
| AdminModules.MenuLinkEdgeCases | src/Cofoundry.Domain/Domain/AdminModules/Models/AdminModule.cs:43-51 | a module without a URL never matches; the empty path matches every module that has a URL |
| AdminModules.MenuLinkCaseInvariant | src/Cofoundry.Domain/Domain/AdminModules/Models/AdminModule.cs:45 | lower- or upper-casing the path, or lower-casing the URL, never changes whether a module matches |
| AdminModules.MenuLinkDirection | src/Cofoundry.Domain/Domain/AdminModules/Models/AdminModule.cs:45 | the URL must start with the path: "/ADMIN/acc" selects the account module at "/admin/account", but "/admin/account/edit" does not |
| AdminModules.AccountModule | src/Cofoundry.Web.Admin/Admin/Modules/Account/Bootstrap/AccountModuleRegistration.cs:19-31 | the "My Account" module is listed under Settings, and its own details URL selects it |
| Text.StartsWithIgnoreCase | src/Cofoundry.Domain/Domain/AdminModules/Models/AdminModule.cs:45 | the character-by-character check agrees with the reference definition of a case-insensitive prefix |
| Text.StartsWithIsFoldedPrefix | src/Cofoundry.Domain/Domain/AdminModules/Models/AdminModule.cs:45 | an ordinal case-insensitive prefix test is exactly a plain prefix test on the case-folded strings |
| Text.StartsWithCaseInvariant | src/Cofoundry.Domain/Domain/AdminModules/Models/AdminModule.cs:45 | the test depends on neither argument's case |
| CustomEntityRegistration.GetModules | src/Cofoundry.Web.Admin/Admin/Modules/CustomEntities/Bootstrap/CustomEntitiesAdminModuleRegistration.cs:24-51 | one module per definition, in order; it is hidden exactly when the definition has no menu category type, and otherwise has that type; it takes the definition's code, plural name and description, Tertiary primary ordering, the list URL and the custom entity permission |
| CustomEntityRegistration.ModuleFor | src/Cofoundry.Web.Admin/Admin/Modules/CustomEntities/Bootstrap/CustomEntitiesAdminModuleRegistration.cs:32-47 | the module is hidden exactly when the definition has no menu category type, and otherwise has that type; it takes the code, plural name, description, Tertiary ordering, list URL and permission |
| CustomEntityRegistration.GetModulesAppend | src/Cofoundry.Web.Admin/Admin/Modules/CustomEntities/Bootstrap/CustomEntitiesAdminModuleRegistration.cs:28-50 | the iterator yields modules definition by definition, so registering two batches yields the modules of each batch in turn |
| CustomEntityRegistration.ExampleModule | src/Cofoundry.BasicTestSite/Cofoundry/CustomEntities/Example/ExampleCustomEntityDefinition.cs:21-75 | the sample "SIMEXA" definition yields a Content module titled "Examples" |
| Sorting.SortByKey | src/Cofoundry.Web.Admin/Admin/Modules/Shared/MVC/ViewComponents/AdminMenuViewComponent.cs:31-33 | `OrderBy` yields a sorted permutation of its input that keeps the input order among equal keys |
| Sorting.StableSortUnique | src/Cofoundry.Web.Admin/Admin/Modules/Shared/MVC/ViewComponents/AdminMenuViewComponent.cs:31-33 | two sorted sequences with the same elements per key are equal, so a stable order by key is unique |
| Sorting.SortKeepsPairwise | src/Cofoundry.Web/Framework/WebApi/ApiResponseHelpers/ApiResponseHelper.cs:123 | any pairwise relation that holds in the input, and that key order implies, still holds after a stable sort |
| Sequences.Filter | src/Cofoundry.Web.Admin/Admin/Modules/Shared/MVC/ViewComponents/AdminMenuViewComponent.cs:44-45 | `Where` keeps only elements that satisfy the predicate, and every element that does, as a subsequence of the input |
| Sequences.FilterCount | src/Cofoundry.Web.Admin/Admin/Modules/Shared/MVC/ViewComponents/AdminMenuViewComponent.cs:44-45 | `Where` keeps every copy of each value that satisfies the predicate and no copy of any other value |
| Sorting.WithKeyIsFilter | src/Cofoundry.Web.Admin/Admin/Modules/Shared/MVC/ViewComponents/AdminMenuViewComponent.cs:31-33 | the elements of one key, on which stability is stated, are exactly those `Where` selects by that key |
| Sequences.FirstIndex | src/Cofoundry.Web.Admin/Admin/Modules/Shared/MVC/ViewComponents/AdminMenuViewComponent.cs:62-63 | `FirstOrDefault` finds the first matching position, and finds none exactly when nothing matches |
| AdminMenu.ModulesOfCategory | src/Cofoundry.Web.Admin/Admin/Modules/Shared/MVC/ViewComponents/AdminMenuViewComponent.cs:44-45 | a category's modules are a subsequence of the permitted modules, all of its class |
| AdminMenu.ModulesOfCategoryCount | src/Cofoundry.Web.Admin/Admin/Modules/Shared/MVC/ViewComponents/AdminMenuViewComponent.cs:44-45 | a category's modules hold every copy of each permitted module of its class and nothing else |
| AdminMenu.BuildCategories | src/Cofoundry.Web.Admin/Admin/Modules/Shared/MVC/ViewComponents/AdminMenuViewComponent.cs:38-54 | a category is kept exactly when it has modules; the kept categories are exactly the sorted categories filtered by that test, duplicates included, each holding a reordering of the permitted modules of its class |
| AdminMenu.MenuCategories | src/Cofoundry.Web.Admin/Admin/Modules/Shared/MVC/ViewComponents/AdminMenuViewComponent.cs:31-54 | (1) categories are in `Order`, with equal orders in registration order; (2) a registered category is shown exactly when a permitted module belongs to it; (3) each shown category lists a reordering of exactly its permitted modules |
| AdminMenu.MenuCategoriesCount | src/Cofoundry.Web.Admin/Admin/Modules/Shared/MVC/ViewComponents/AdminMenuViewComponent.cs:38-51 | a registered category is listed as many times as it is registered when it has a permitted module, and not at all otherwise |
| AdminMenu.SelectedModuleIndex | src/Cofoundry.Web.Admin/Admin/Modules/Shared/MVC/ViewComponents/AdminMenuViewComponent.cs:56-63 | the selected item is the first permitted module whose link matches the path, and there is none exactly when no module matches |
| AdminMenu.SelectedCategory | src/Cofoundry.Web.Admin/Admin/Modules/Shared/MVC/ViewComponents/AdminMenuViewComponent.cs:69 | the selected category is the first sorted category of the module's class, and there is none exactly when no category has that class |
| AdminMenu.InvokeAsWritten | src/Cofoundry.Web.Admin/Admin/Modules/Shared/MVC/ViewComponents/AdminMenuViewComponent.cs:27-71 | the component as written fails exactly when no permitted module matches the path; otherwise it agrees with the corrected component |
| AdminMenu.Invoke | src/Cofoundry.Web.Admin/Admin/Modules/Shared/MVC/ViewComponents/AdminMenuViewComponent.cs:27-71 | the listed categories are those of `MenuCategories`; the selected module is the first one whose link matches the path, or none when no link matches; the selected category is the first category of that module's class in menu order |
| AdminMenu.ModuleListedUnderItsCategory | src/Cofoundry.Web.Admin/Admin/Modules/Shared/MVC/ViewComponents/AdminMenuViewComponent.cs:38-51 | a permitted module whose class is a registered category always appears under that category |
| AdminMenu.HiddenModuleNeverListed | src/Cofoundry.Domain/Domain/AdminModules/Models/AdminModule.cs:58-61 | a hidden module never appears in the menu |
| AdminMenu.SelectedCategoryIsShown | src/Cofoundry.Web.Admin/Admin/Modules/Shared/MVC/ViewComponents/AdminMenuViewComponent.cs:65-70 | a selected category is always one of the categories the menu shows |
| AdminMenu.UnmatchedPathFailsAsWritten | src/Cofoundry.Web.Admin/Admin/Modules/Shared/MVC/ViewComponents/AdminMenuViewComponent.cs:65-67 | for the request "/admin/pages" with only "My Account" permitted, the component as written fails; the corrected one shows Settings and selects nothing |
| AdminMenu.FixtureCategoryOrder | src/Cofoundry.BasicTestSite/Cofoundry/Admin/Modules/Products/Bootstrap/ShopAdminModuleMenuCategory.cs:16 | Settings (200), Content (100) and Shop (150) are ordered as Content, Shop, Settings |
| ValidationErrors.PropertyKey | src/Cofoundry.Web/Framework/WebApi/ApiResponseHelpers/ApiResponseHelper.cs:115-119 | the property key is empty for a null or empty property list, the single name for one property, and otherwise the names joined with "+" |
| ValidationErrors.ErrorKey | src/Cofoundry.Web/Framework/WebApi/ApiResponseHelpers/ApiResponseHelper.cs:113-121 | errors are grouped by their message together with their property key |
| ValidationErrors.KeyIgnoresErrorCode | src/Cofoundry.Web/Framework/WebApi/ApiResponseHelpers/ApiResponseHelper.cs:113-121 | errors that differ only in their error codes share a key |
| Text.Join | src/Cofoundry.Web/Framework/WebApi/ApiResponseHelpers/ApiResponseHelper.cs:118 | joining no parts gives the empty string, one part gives that part, and otherwise the first part begins the result |
| Text.JoinAppend | src/Cofoundry.Web/Framework/WebApi/ApiResponseHelpers/ApiResponseHelper.cs:118 | joining two non-empty lists one after the other is joining each and putting the separator between, which with the one-part case fixes every part of the result in place |
| Text.JoinShape | src/Cofoundry.Web/Framework/WebApi/ApiResponseHelpers/ApiResponseHelper.cs:118 | the last part ends the joined string, whose length is the parts' total plus one separator between each neighbouring pair |
| ValidationErrors.JoinedPropertiesCollide | src/Cofoundry.Web/Framework/WebApi/ApiResponseHelpers/ApiResponseHelper.cs:118 | errors on the properties "a" and "b" and on a single property "a+b" share a key |
| ValidationErrors.FirstIndexOfKeyIsFirstIndex | src/Cofoundry.Web/Framework/WebApi/ApiResponseHelpers/ApiResponseHelper.cs:113-124 | the position of a group's first error, which `FirstOrDefault` picks, is the first-match search for its key, with "none" standing for a key that never occurs |
| ValidationErrors.FirstOfEachKey | src/Cofoundry.Web/Framework/WebApi/ApiResponseHelpers/ApiResponseHelper.cs:112-124 | `GroupBy` followed by `FirstOrDefault` keeps the first error of each key and nothing else, in order of first occurrence |
| ValidationErrors.FormatValidationErrors | src/Cofoundry.Web/Framework/WebApi/ApiResponseHelpers/ApiResponseHelper.cs:107-127 | (1) null yields no errors; (2) no key appears twice, and each error is the first input error with its key; (3) every input key is represented; (4) the result is ordered by property key, with equal property keys in order of first occurrence; (5) it is empty exactly when the input is null or empty |
| ValidationErrors.NullAndEmptyPropertiesMerge | src/Cofoundry.Web/Framework/WebApi/ApiResponseHelpers/ApiResponseHelper.cs:115-121 | an error with a null property list and one with an empty list share a key, and only the first survives |
| ValidationErrors.FormatSingleton | src/Cofoundry.Web/Framework/WebApi/ApiResponseHelpers/ApiResponseHelper.cs:107-127 | a single error is formatted to itself |
| ApiResponses.SimpleQueryResponse | src/Cofoundry.Web/Framework/WebApi/ApiResponseHelpers/ApiResponseHelper.cs:51-58 | 404 exactly for a null result and 200 otherwise, always with the result as data |
| ApiResponses.GetCommandResponse | src/Cofoundry.Web/Framework/WebApi/ApiResponseHelpers/ApiResponseHelper.cs:278-286 | 400 exactly for an invalid response and 200 exactly for a valid one, with the body unchanged |
| ApiResponses.SimpleCommandResponse | src/Cofoundry.Web/Framework/WebApi/ApiResponseHelpers/ApiResponseHelper.cs:84-91 | the errors are the formatted input; the response is valid exactly when the input is null or empty; 200 when valid, 400 otherwise |
| ApiResponses.SimpleCommandResponseWith | src/Cofoundry.Web/Framework/WebApi/ApiResponseHelpers/ApiResponseHelper.cs:68-76 | as without data, and the given data is returned unchanged |
| ApiResponses.NotPermittedResponse | src/Cofoundry.Web/Framework/WebApi/ApiResponseHelpers/ApiResponseHelper.cs:98-105 | 403, invalid, with exactly one error carrying the exception message and no code |
| ApiResponses.ToValidationError | src/Cofoundry.Web/Framework/WebApi/ApiResponseHelpers/ApiResponseHelper.cs:334-342 | the error carries the result's message and member names, and no code |
| ApiResponses.WithExceptionCode | src/Cofoundry.Web/Framework/WebApi/ApiResponseHelpers/ApiResponseHelper.cs:325-328 | a `ValidationErrorException` sets its code, even a null one, on the error; other validation exceptions leave it unchanged; message and properties are kept |
| ApiResponses.AddValidationExceptionToErrorList | src/Cofoundry.Web/Framework/WebApi/ApiResponseHelpers/ApiResponseHelper.cs:300-342 | earlier errors are kept; a composite result adds one error per inner result, with no code; otherwise exactly one error is added, from the result or else from the exception message with no property names, with the code only for a `ValidationErrorException` |
| ApiResponses.ErrorsAfterRunning | src/Cofoundry.Web/Framework/WebApi/ApiResponseHelpers/ApiResponseHelper.cs:189-205 | pre-validation errors stand alone, since the command then never runs; otherwise only a validation exception adds errors |
| ApiResponses.RunCommand | src/Cofoundry.Web/Framework/WebApi/ApiResponseHelpers/ApiResponseHelper.cs:187-214 | (1) 403 exactly when pre-validation passed and the command was not permitted; (2) pre-validation errors give a 400 with those errors; (3) a completed command gives a valid 200; (4) a validation exception gives its errors; (5) the data body is used exactly when there is an output value; (6) unless 403, the response is valid exactly when it has no errors, and then it is a 200, otherwise a 400 |
| ApiResponses.RunAction | src/Cofoundry.Web/Framework/WebApi/ApiResponseHelpers/ApiResponseHelper.cs:222-243 | 403 exactly for a permission failure; a completed action gives a valid 200 with no errors; a validation exception gives its formatted errors; unless 403, the response carries data, is valid exactly when it has no errors, and is a 200 when valid and a 400 when invalid |
| ApiResponses.RunWithResult | src/Cofoundry.Web/Framework/WebApi/ApiResponseHelpers/ApiResponseHelper.cs:252-274 | 403 exactly for a permission failure; completion returns the function's result as data in a valid 200; a validation exception returns its errors with the default value as data; unless 403, the response carries data, is valid exactly when it has no errors, and is a 200 when valid and a 400 when invalid |
| ApiResponses.PreValidationSkipsExecution | src/Cofoundry.Web/Framework/WebApi/ApiResponseHelpers/ApiResponseHelper.cs:189-205 | when pre-validation reports errors, the command is not executed: the response is the same whatever executing it would have done |
| ApiResponses.RunActionIsUnvalidatedCommand | src/Cofoundry.Web/Framework/WebApi/ApiResponseHelpers/ApiResponseHelper.cs:222-243 | running an action equals running a command that passes pre-validation and has no output value |
| ApiResponses.EmptyCompositeIsSwallowed | src/Cofoundry.Web/Framework/WebApi/ApiResponseHelpers/ApiResponseHelper.cs:302-310 | a validation exception whose composite result is empty adds no error, so the action is reported as a valid 200 |
| ApiResponses.ExceptionWithoutResult | src/Cofoundry.Web/Framework/WebApi/ApiResponseHelpers/ApiResponseHelper.cs:313-330 | a coded validation exception constructed without a result gives a 400 whose one error has the exception's message, an empty property list and the code |

## Left out

- Dependency injection: the constructors, `IApiResponseHelper`, and the service registrations. They only wire components together.
- Async and ASP.NET: tasks, `ControllerBase`, view rendering, and `ViewPathFormatter`.
  - The response is a status code plus a body.
  - The request path is a parameter and is never null.
- The query executor and the command executor are not modelled.
  - The permitted modules (`GetPermittedAdminModulesQuery`) are an input.
  - Executing a command, action or function is an `Outcome` input.
  - Pre-validation (`IModelValidationService.GetErrors`) is an input list of errors.
- The patch-style `RunCommandAsync` overloads (`IDelta`): they fetch the command through the query executor and patch it, then call the modelled `RunCommandAsync`.
- `GetCommandOutputValue`: it uses reflection to find the `OutputValueAttribute` property. The output value is a parameter of `ApiResponses.RunCommand`.
- `SetStandardOrdering`: its definition is not part of this model. It is a parameter that must reorder its input without adding or losing modules. The listed modules are therefore stated as a permutation, not as a particular order.
- The culture-sensitive string comparer used by `OrderBy(g => g.Key.propKey)`: it is a parameter, the rank of each property key. The sort is stable on that rank.
- Non-ASCII case mapping in `OrdinalIgnoreCase`: only ASCII letters are folded.
- `ValidationError` as a mutable class with a message-only constructor: it is an immutable value. A null property list is `None`, and so is a null error code.
- A null message and null property names are not modelled: `message` and each property name are plain strings. In C# a null message (for example from `ValidationResult.ErrorMessage` at src/Cofoundry.Web/Framework/WebApi/ApiResponseHelpers/ApiResponseHelper.cs:338) forms a de-duplication group of its own, apart from the empty message, and `string.Join` at :118 renders a null name as the empty string.
- The generic response data types (`SimpleResponseData<T>` and the others): the data is held as the serialised value, of type `ApiResponses.Json`, whose encoding is not modelled. A null result is `None`.
- `default(TResult)` in `RunWithResultAsync`: it is the `defaultResult` parameter, since Dafny has no default value for a generic type.
- `AdminModuleMenuPrimaryOrdering`: only the members the modelled code sets are named. Secondary ordering is left at 0.
- Exceptions other than `ValidationException` and `NotPermittedException` are not modelled. The helper catches only those two (src/Cofoundry.Web/Framework/WebApi/ApiResponseHelpers/ApiResponseHelper.cs:197-204). Any other exception propagates to the caller, whether it comes from the executed command, action or function, from `GetErrors` (:189) or from `SingleOrDefault` when a command has two output properties (:293). `Outcome` has no case for it, because the helper produces no response then.
- The null-result branch of `AddValidationExceptionToErrorList` (src/Cofoundry.Web/Framework/WebApi/ApiResponseHelpers/ApiResponseHelper.cs:319-323) is never taken. The framework's `ValidationException.ValidationResult` property creates a result from the message, naming no members, when none was given. The model follows that behaviour (`ApiResponses.ResultOf`), so a message-only exception yields an error whose property list is empty rather than null.
- CustomEntityRegistration.ModuleFor: accepts any category type. `MakeGenericType` (src/Cofoundry.Web.Admin/Admin/Modules/CustomEntities/Bootstrap/CustomEntitiesAdminModuleRegistration.cs:38) throws when the definition's category type does not implement `IAdminModuleMenuCategory`, the constraint on `AdminModule<T>`; that failure is not modelled, because a category type here is only a class name.
- `ContentRepositoryCustomEntityRepository` and the other registration files: context only, with no behaviour in the core.
- The admin route library: the list URL and the permission of a custom entity module are function parameters of `CustomEntityRegistration.GetModules`.

## Findings

| source | as written | input that shows it | evidently intended | confidence | as-written member | corrected member |
|---|---|---|---|---|---|---|
| src/Cofoundry.Web.Admin/Admin/Modules/Shared/MVC/ViewComponents/AdminMenuViewComponent.cs:65-67 | `selectedItem.CategoryType` is read before the `selectedItem != null` check, so a request path matching no permitted module throws a null reference exception | the categories Content and Settings, only "My Account" (URL "/admin/account") permitted, and request path "/admin/pages" | the null check guards the read: with no matching module the menu renders with no selected module or category | not executed | AdminMenu.InvokeAsWritten, AdminMenu.UnmatchedPathFailsAsWritten | AdminMenu.Invoke |
