/**
 The catalogue as an immutable value: the Cars, Dealers and Categories
 tables of the database, with the lookups that the services perform on them
 and the integrity constraints the database enforces.
 */
module Store {

  datatype Option<T> = None | Some(value: T)

  /** A row of the Cars table. */
  datatype Car = Car(
    id: int,
    brand: string,
    model: string,
    description: string,
    imageUrl: string,
    year: int,
    categoryId: int,
    dealerId: int,
    isPublic: bool)

  /** A row of the Dealers table; `userId` is the identity-provider user. */
  datatype Dealer = Dealer(id: int, name: string, phoneNumber: string, userId: string)

  /** A row of the Categories table. */
  datatype Category = Category(id: int, name: string)

  datatype Store = Store(cars: seq<Car>, dealers: seq<Dealer>, categories: seq<Category>)

  /** The fields a dealer supplies in the car form. */
  datatype CarForm = CarForm(
    brand: string,
    model: string,
    description: string,
    imageUrl: string,
    year: int,
    categoryId: int)

  /** DbSet.FindAsync on Cars: the car with the given primary key, if any. */
  function FindCar(cars: seq<Car>, id: int): (r: Option<Car>)
    ensures r.None? <==> forall i :: 0 <= i < |cars| ==> cars[i].id != id
    ensures r.Some? ==> r.value in cars && r.value.id == id
  {
    if |cars| == 0 then None
    else if cars[0].id == id then Some(cars[0])
    else FindCar(cars[1..], id)
  }

  /** The dealer with the given primary key, if any (the Car.Dealer navigation). */
  function FindDealer(dealers: seq<Dealer>, id: int): (r: Option<Dealer>)
    ensures r.None? <==> forall i :: 0 <= i < |dealers| ==> dealers[i].id != id
    ensures r.Some? ==> r.value in dealers && r.value.id == id
  {
    if |dealers| == 0 then None
    else if dealers[0].id == id then Some(dealers[0])
    else FindDealer(dealers[1..], id)
  }

  predicate HasCar(cars: seq<Car>, id: int)
  {
    exists i :: 0 <= i < |cars| && cars[i].id == id
  }

  predicate HasDealer(dealers: seq<Dealer>, id: int)
  {
    exists i :: 0 <= i < |dealers| && dealers[i].id == id
  }

  predicate HasCategory(categories: seq<Category>, id: int)
  {
    exists i :: 0 <= i < |categories| && categories[i].id == id
  }

  /** No two cars share a primary key. */
  predicate UniqueCarIds(cars: seq<Car>)
  {
    forall i, j :: 0 <= i < |cars| && 0 <= j < |cars| && i != j ==> cars[i].id != cars[j].id
  }

  /** No two dealers share a primary key. */
  predicate UniqueDealerIds(dealers: seq<Dealer>)
  {
    forall i, j :: 0 <= i < |dealers| && 0 <= j < |dealers| && i != j ==> dealers[i].id != dealers[j].id
  }

  /**
   The constraints the database enforces: identity keys are positive and
   unique, and every car's DealerId and CategoryId refer to existing rows
   (the two foreign keys of the Cars table).
   */
  predicate Valid(st: Store)
  {
    && UniqueCarIds(st.cars)
    && UniqueDealerIds(st.dealers)
    && (forall i :: 0 <= i < |st.cars| ==> st.cars[i].id >= 1)
    && (forall i :: 0 <= i < |st.dealers| ==> st.dealers[i].id >= 1)
    && (forall i :: 0 <= i < |st.cars| ==> HasDealer(st.dealers, st.cars[i].dealerId))
    && (forall i :: 0 <= i < |st.cars| ==> HasCategory(st.categories, st.cars[i].categoryId))
  }

  /**
   At most one dealer per identity-provider user. The database does not
   enforce this; the dealer registration action does.
   */
  predicate OneDealerPerUser(dealers: seq<Dealer>)
  {
    forall i, j :: 0 <= i < |dealers| && 0 <= j < |dealers| && i != j ==> dealers[i].userId != dealers[j].userId
  }

  /** The identity value the database hands to the next inserted car. */
  function NextCarId(cars: seq<Car>): (r: int)
    ensures r >= 1
    ensures forall i :: 0 <= i < |cars| ==> cars[i].id < r
  {
    if |cars| == 0 then 1
    else
      var rest := NextCarId(cars[1..]);
      if cars[0].id < rest then rest else cars[0].id + 1
  }

  /** The identity value the database hands to the next inserted dealer. */
  function NextDealerId(dealers: seq<Dealer>): (r: int)
    ensures r >= 1
    ensures forall i :: 0 <= i < |dealers| ==> dealers[i].id < r
  {
    if |dealers| == 0 then 1
    else
      var rest := NextDealerId(dealers[1..]);
      if dealers[0].id < rest then rest else dealers[0].id + 1
  }

  /** In a store with unique keys, FindCar returns the one car with that key. */
  lemma FindCarUnique(cars: seq<Car>, i: int)
    requires UniqueCarIds(cars)
    requires 0 <= i < |cars|
    ensures FindCar(cars, cars[i].id) == Some(cars[i])
  {
    var r := FindCar(cars, cars[i].id);
    var k :| 0 <= k < |cars| && cars[k] == r.value;
  }
}
