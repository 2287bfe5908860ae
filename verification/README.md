# Car renting system: listing engine and visibility workflow

This project models the decision logic of a car-listing marketplace in Dafny.
Dealers submit cars. An administrator approves them. The public browses,
filters, sorts and pages the approved listings.

The catalogue is an immutable value `Store`: a sequence of cars, a sequence
of dealers and a sequence of categories. Every service call and every
controller action becomes a pure function from the catalogue and its inputs
to a result, plus a new catalogue where the action writes.

Modules, one per source component:

- `Text`: the .NET string operations the query uses. These are
  `string.IsNullOrWhiteSpace`, `ToLower`, `Contains` and ordinal ordering.
  A null string is `NullableString.Null`.
- `Seqs`: order-preserving `Where`, and `Skip`/`Take` with LINQ's clamping of
  out-of-range counts.
- `Store`: the Car, Dealer and Category rows, primary-key lookups, and the
  `Valid` invariant. `Valid` says keys are positive and unique, every car's
  DealerId names a dealer and every car's CategoryId names a category.
- `Listing`: `AllAsync`, `LatestAsync` and `AllBrandsAsync`. A car belongs to
  a listing iff it passes the eligibility, brand and search stages (`Matches`).
  The listing is an insertion sort under the chosen `CarSorting`, then the
  page window.
- `CarService`: `CreateAsync`, `EditAsync`, `ChangeVisilityAsync`,
  `IsByDealerAsync`, `CategoryExistsAsync` and `ByUserAsync`.
- `DealerService`: `IsDealerAsync`, and `IdByUserAsync` with its 0 sentinel.
- `Actions`: the outcomes a controller action can produce.
- `CarsController`, `DealersController`: the guard chains of Add (POST),
  Edit (GET), Edit (POST) and Become (POST). The caller's user id, the admin
  role and `ModelState.IsValid` are plain inputs.

Visibility has two states, Pending (`isPublic == false`) and Published.
`Create` always yields Pending. `ChangeVisibility` flips the state. `Edit`
sets it from the caller's flag. The Edit action passes that flag as "the
caller is an admin", so an admin edit publishes the car and a dealer edit
sends it back to Pending.

## Model

| member | source | states |
|---|---|---|
| Text.IsNullOrWhiteSpace | CarRentingSystem/Services/Cars/CarService.cs:36 | A string is blank iff it is null or every character is whitespace (the empty string included) |
| Text.Contains | CarRentingSystem/Services/Cars/CarService.cs:43-45 | `Contains` holds iff the needle occurs at some position of the haystack |
| Text.LowerAppend | CarRentingSystem/Services/Cars/CarService.cs:44 | Lower-casing `Brand + " " + Model` is lower-casing each part and joining them with a space |
| Seqs.Filter | CarRentingSystem/Services/Cars/CarService.cs:33-46 | A `Where` stage keeps exactly the elements that satisfy its predicate, and is never longer than its input |
| Seqs.FilterMultiset | CarRentingSystem/Services/Cars/CarService.cs:33-46 | A `Where` stage keeps every occurrence of a satisfying element and no occurrence of any other |
| Seqs.FilterIdempotent | CarRentingSystem/Services/Cars/CarService.cs:33-46 | Applying the same filter twice gives the same result as applying it once |
| Seqs.SkipTake | CarRentingSystem/Services/Cars/CarService.cs:57-59 | Skip then Take yields the window of at most `take` elements that starts at the (clamped) skip count |
| Store.FindCar | CarRentingSystem/Services/Cars/CarService.cs:123-128 | A primary-key lookup finds nothing iff no car has that key; what it finds has that key and is in the table |
| Store.NextCarId | CarRentingSystem/Services/Cars/CarService.cs:107-110 | A new car's key is positive and greater than every existing car's key |
| Listing.Matching | CarRentingSystem/Services/Cars/CarService.cs:33-46 | A car is in the filtered listing iff it is in the store and passes the eligibility, brand and search stages |
| Listing.MatchingMultiset | CarRentingSystem/Services/Cars/CarService.cs:33-46 | The filtered listing holds each matching row exactly as often as the store does, and no other row |
| Listing.MatchingCount | CarRentingSystem/Services/Cars/CarService.cs:55 | The count of the filtered listing equals the number of store rows that match the query |
| Listing.MatchingIdempotent | CarRentingSystem/Services/Cars/CarService.cs:33-46 | Running the filter stages over their own output changes nothing |
| Listing.PublicOnlyIsSubset | CarRentingSystem/Services/Cars/CarService.cs:33-34 | The publicOnly=true listing is exactly the published part of the publicOnly=false listing, so it is a sub-multiset of it |
| Listing.PublicOnlyCountsFewer | CarRentingSystem/Services/Cars/CarService.cs:33-34 | The publicOnly=true total is never larger than the publicOnly=false total |
| Listing.BlankBrandKeepsAll | CarRentingSystem/Services/Cars/CarService.cs:36-39 | A null or whitespace brand filters the same as no brand at all |
| Listing.BrandFilterIsExact | CarRentingSystem/Services/Cars/CarService.cs:36-39 | A non-blank brand keeps exactly the cars of the brand-less listing whose Brand equals it |
| Listing.BlankSearchKeepsAll | CarRentingSystem/Services/Cars/CarService.cs:41-46 | A null or whitespace search term filters the same as no search term |
| Listing.SearchIgnoresTermCase | CarRentingSystem/Services/Cars/CarService.cs:43-45 | Lower-casing the search term does not change which cars match |
| Listing.SearchIgnoresCarCase | CarRentingSystem/Services/Cars/CarService.cs:43-45 | Lower-casing a car's brand, model and description does not change whether it matches a search |
| Listing.SearchExampleToyota | CarRentingSystem/Services/Cars/CarService.cs:44 | Searching "toyota" matches a car whose Brand is "Toyota" |
| Listing.SearchExampleSpaceJoin | CarRentingSystem/Services/Cars/CarService.cs:44 | Searching "Audi A4" matches Brand "Audi" with Model "A4", because a space joins brand and model |
| Listing.Sort | CarRentingSystem/Services/Cars/CarService.cs:48-53 | The sorted listing is a permutation of its input and ordered by the chosen sorting |
| Listing.PrecedesTransitive | CarRentingSystem/Services/Cars/CarService.cs:51 | Brand-then-model ordering (and each other sort order) is transitive |
| Listing.RecencySortedIsStrict | CarRentingSystem/Services/Cars/CarService.cs:52 | With distinct keys, DateCreated or any other sorting value lists keys strictly decreasing |
| Listing.SortedMatches | CarRentingSystem/Services/Cars/CarService.cs:48-55 | The sorted listing is ordered, holds exactly the matching rows, and its length is the match count |
| Listing.All | CarRentingSystem/Services/Cars/CarService.cs:25-68 | AllAsync echoes CurrentPage and CarsPerPage and reports TotalCars as the match count. Its page is sorted and no longer than TotalCars or CarsPerPage. Every listed car is a matching store row, and a published one when publicOnly holds |
| Listing.AllIsPageOfSortedMatches | CarRentingSystem/Services/Cars/CarService.cs:55-67 | For currentPage and carsPerPage of at least 1, the page is the slice of the sorted matches starting at (currentPage-1)*carsPerPage, with the exact expected length |
| Listing.PagePastEndIsEmpty | CarRentingSystem/Services/Cars/CarService.cs:57-59 | A page that starts at or beyond TotalCars is empty |
| Listing.FirstPageHoldsEverything | CarRentingSystem/Services/Cars/CarService.cs:57-59 | Page 1 with a page size of at least TotalCars lists every match |
| Listing.AllRecencyOrder | CarRentingSystem/Services/Cars/CarService.cs:52 | Under the default sorting and with distinct keys, the page lists keys strictly decreasing |
| Listing.ExampleAudiQuery | CarRentingSystem/Services/Cars/CarService.cs:25-68 | Cars 1..5 have brands Audi, BMW, Audi, VW and BMW. Brand "Audi" over all cars gives TotalCars 2 and lists car 3, then car 1 |
| Listing.Latest | CarRentingSystem/Services/Cars/CarService.cs:70-77 | LatestAsync returns at most 3 published store cars, newest key first. Any published car left out has a key no greater than every returned car's, and then exactly 3 are returned |
| Listing.LatestStrictlyNewestFirst | CarRentingSystem/Services/Cars/CarService.cs:74 | With distinct keys the latest cars have strictly decreasing keys |
| Listing.AllBrands | CarRentingSystem/Services/Cars/CarService.cs:158-164 | AllBrandsAsync lists each brand of any car, public or not, exactly once, in strictly ascending ordinal order, and nothing else |
| CarService.Create | CarRentingSystem/Services/Cars/CarService.cs:86-111 | CreateAsync inserts one car under a fresh key greater than every existing key. The car carries the given fields and dealer and is Pending. Existing rows, dealers and categories are unchanged |
| CarService.CreateKeepsValid | CarRentingSystem/Services/Cars/CarService.cs:95-110 | Creating a car for an existing dealer and an existing category keeps keys unique and positive, and keeps every DealerId and CategoryId resolvable |
| CarService.Edit | CarRentingSystem/Services/Cars/CarService.cs:113-141 | EditAsync reports true iff the car exists. A missing car leaves everything unchanged. Otherwise it overwrites the six form fields and sets visibility to isPublic, keeping Id and DealerId. Every other row is untouched |
| CarService.EditThenFind | CarRentingSystem/Services/Cars/CarService.cs:123-140 | After a successful edit, looking the car up yields the new fields, the old DealerId and the requested visibility |
| CarService.EditKeepsValid | CarRentingSystem/Services/Cars/CarService.cs:130-136 | Editing with an existing category keeps keys, dealer references and category references intact |
| CarService.EditWithUnknownCategoryBreaksValid | CarRentingSystem/Services/Cars/CarService.cs:130-136 | EditAsync itself does not check the category: editing an existing car with an unknown CategoryId leaves a dangling category reference, so the controller's check is what keeps the foreign key intact |
| CarService.ChangeVisibility | CarRentingSystem/Services/Cars/CarService.cs:149-156 | ChangeVisilityAsync negates IsPublic of the car with that key and changes nothing else; the car must exist |
| CarService.ChangeVisibilityTwice | CarRentingSystem/Services/Cars/CarService.cs:151-153 | Flipping visibility twice restores the catalogue |
| CarService.ChangeVisibilityKeepsValid | CarRentingSystem/Services/Cars/CarService.cs:151-153 | Flipping visibility keeps keys, dealer references and category references intact |
| CarService.CreateApproveRevoke | CarRentingSystem/Services/Cars/CarService.cs:149-156 | A created car is Pending; one flip publishes it; a second flip restores the freshly created catalogue |
| CarService.IsByDealer | CarRentingSystem/Services/Cars/CarService.cs:146-147 | IsByDealerAsync holds iff some car has that key and that DealerId |
| CarService.CategoryExists | CarRentingSystem/Services/Cars/CarService.cs:169-170 | CategoryExistsAsync holds iff some category has that key |
| CarService.ByUser | CarRentingSystem/Services/Cars/CarService.cs:143-144 | ByUserAsync keeps each owned row exactly as often as the catalogue holds it, and drops every other row. With unique dealer keys, a car is listed iff its dealer belongs to the user |
| CarService.OwnedByUserIff | CarRentingSystem/Services/Cars/CarService.cs:144 | With unique dealer keys, the Where predicate `c.Dealer.UserId == userId` holds iff some dealer with the car's DealerId has that UserId |
| CarService.ByUserCarsAreOwned | CarRentingSystem/Services/Cars/CarService.cs:143-147 | With one dealer per user, every car listed for a user passes the ownership check for that user's dealer key |
| DealerService.IsDealer | CarRentingSystem/Services/Dealers/DealerService.cs:15-16 | IsDealerAsync(u) holds iff some dealer has UserId u |
| DealerService.IdByUser | CarRentingSystem/Services/Dealers/DealerService.cs:18-23 | IdByUserAsync(u) is 0 when no dealer has UserId u. Otherwise it is the Id of the first dealer with UserId u |
| DealerService.NonZeroIdMeansDealer | CarRentingSystem/Services/Dealers/DealerService.cs:15-23 | A non-zero IdByUserAsync result implies IsDealerAsync |
| DealerService.ZeroIdMeansNotDealer | CarRentingSystem/Services/Dealers/DealerService.cs:15-23 | When no dealer has Id 0, IdByUserAsync returns 0 iff IsDealerAsync is false |
| DealerService.IdByUserIsTheDealer | CarRentingSystem/Services/Dealers/DealerService.cs:18-23 | With one dealer per user, IdByUserAsync returns that user's dealer key |
| CarsController.AddPost | CarRentingSystem/Controllers/CarsController.cs:80-115 | Add POST guards and outcomes. Dealer id 0 redirects with no change. An unknown category or invalid form re-shows the form with no change. It succeeds iff neither happens, adding one Pending car under a fresh key, owned by the caller's dealer id, with everything else unchanged |
| CarsController.AddPostOwnedByCaller | CarRentingSystem/Controllers/CarsController.cs:84-110 | In a valid catalogue, a successful Add creates the car for a dealer whose UserId is the caller, and the catalogue stays valid |
| CarsController.AddPostKeepsValid | CarRentingSystem/Controllers/CarsController.cs:80-115 | Whatever Add answers, a valid catalogue stays valid: the category check at lines 91-101 keeps every CategoryId resolvable |
| CarsController.EditGet | CarRentingSystem/Controllers/CarsController.cs:117-139 | Edit GET outcomes. Neither dealer nor admin redirects. A missing car dereferences null. Unauthorized happens iff a non-admin reaches an existing car whose owner's UserId differs from the caller's. The form is shown iff the car exists and the caller is an admin, or is a dealer whose UserId owns the car, and then it is that car's form |
| CarsController.EditGetAdminSeesEveryCar | CarRentingSystem/Controllers/CarsController.cs:122-132 | An admin reaches the edit form of every existing car |
| CarsController.EditPost | CarRentingSystem/Controllers/CarsController.cs:141-187 | Edit POST guards and outcomes. Neither dealer nor admin redirects. An unknown category or invalid form re-shows the form. A non-admin who does not own the car gets BadRequest. None of these change anything. It succeeds iff every guard passes and the car exists, and then its store is EditAsync with isPublic = IsAdmin |
| CarsController.NonAdminEditForcesPending | CarRentingSystem/Controllers/CarsController.cs:169-177 | A successful non-admin edit leaves the car Pending, whatever its prior state |
| CarsController.AdminEditPublishes | CarRentingSystem/Controllers/CarsController.cs:169-177 | A successful admin edit leaves the car Published, whatever its prior state |
| CarsController.EditPostChangesOnlyThatCar | CarRentingSystem/Controllers/CarsController.cs:169-186 | A successful edit keeps the catalogue valid and every key and DealerId, and changes no other car, dealer or category |
| CarsController.EditPostKeepsValid | CarRentingSystem/Controllers/CarsController.cs:141-187 | Whatever Edit answers, a valid catalogue stays valid: the category check at lines 152-162 keeps every CategoryId resolvable |
| CarsController.EditPostMissingCar | CarRentingSystem/Controllers/CarsController.cs:164-182 | Past the guards, editing a missing car id is a BadRequest that leaves the store unchanged, for admins and dealers alike |
| CarsController.EditGuardsAgree | CarRentingSystem/Controllers/CarsController.cs:117-150 | In a valid catalogue, the GET's IsDealer test and the POST's sentinel test turn away exactly the same callers |
| DealersController.BecomePost | CarRentingSystem/Controllers/DealersController.cs:24-57 | Become POST outcomes. An existing dealer for the caller gives BadRequest even when the form is invalid. An invalid form for a new user re-shows it. Neither inserts anything. Success appends exactly one dealer with the given Name and PhoneNumber, UserId = caller and a fresh positive key |
| DealersController.BecomeKeepsInvariants | CarRentingSystem/Controllers/DealersController.cs:44-52 | Registration preserves "at most one dealer per UserId" and the catalogue's validity |
| DealersController.BecomeTwiceConflicts | CarRentingSystem/Controllers/DealersController.cs:30-37 | Registering the same user a second time is a BadRequest that changes nothing |

## Left out

- Entity Framework, LINQ-to-SQL translation, async/await, `SaveChangesAsync` and AutoMapper projections. Queries return the car rows themselves, and the store is an in-memory value.
- `ToLower`, `IsWhiteSpace` and string ordering are modelled for ASCII only. Lower-casing changes only 'A'..'Z'. Whitespace is space, tab, line feed, vertical tab, form feed and carriage return. Ordering compares code points. Database collation and culture rules are not modelled.
- Sort tie order: the underlying ORDER BY is not stable, so the model promises only that the page is sorted, not which of two equal-key cars comes first.
- Listing.All: uses mathematical integers, so the Int32 overflow of `(currentPage - 1) * carsPerPage` is not modelled. The default page size is int.MaxValue, so page 3 and beyond overflow. A negative skip or a non-positive take uses LINQ-to-Objects clamping; a SQL provider might reject it instead.
- Store.NextCarId: database identity generation is modelled as "one more than the largest existing key". This is one fresh key the database may hand out, not a model of the identity column.
- CarService.ChangeVisibility: requires that the car exists. The source dereferences the lookup result without a null check, so a missing key throws.
- `DetailsAsync` is not a separate member. Edit GET uses the primary-key lookup. The details' `UserId` is taken to be the UserId of the car's dealer, since the mapping profile is not part of this model.
- The `Details` action's slug check through `GetInformation()`: that extension is not part of this model.
- Views, redirect targets, TempData messages, `[Authorize]` attributes and identity claims. `User.Id()`, `User.IsAdmin()` and `ModelState.IsValid` are plain inputs, and the category check's model error is folded into the form's validity.
- HomeController's 15-minute `IMemoryCache` entry for the latest cars: it depends on time and a cache.
- CarsApiController: a thin delegate to `AllAsync` with `publicOnly` left at its default of true. The Admin CarsController is a thin delegate to `AllAsync(publicOnly: false)` and `ChangeVisilityAsync`. Neither has logic of its own.
- `AllCategoriesAsync`, and the Add/Edit GET form population: these only read lists for display.
- Concurrency: each action is one atomic step on the catalogue value. DealersController.BecomeKeepsInvariants depends on this. Become's `AnyAsync` check (DealersController.cs:30-32) and its insert (:51-52) are separate database round trips, and nothing in the database forbids two dealers with the same UserId. So two concurrent Become requests from one user can both pass the check and insert two dealers.
