/** The two rows the database context seeds into a freshly created Books table
    (backend/BookManagementApp/Models/AppDbContext.cs). */
module CatalogSeed {
  import opened BookModel

  const Gatsby := Book(1, "The Great Gatsby", "F. Scott Fitzgerald", "9780743273565", Date(1925, 4, 10))

  const Mockingbird := Book(2, "To Kill a Mockingbird", "Harper Lee", "9780061120084", Date(1960, 7, 11))

  /** The initial table. */
  function Seed(): (t: Table)
    ensures t.Keys == {1, 2}
    ensures WellKeyed(t)
  {
    map[1 := Gatsby, 2 := Mockingbird]
  }

  /** The seed already satisfies the create-time uniqueness rule. */
  lemma SeedIsUnique()
    ensures Unique(Seed())
  {
  }

  /** Every seeded title, author and isbn is non-empty. */
  lemma SeedFieldsPresent()
    ensures forall id :: id in Seed() ==>
      Seed()[id].title != "" && Seed()[id].author != "" && Seed()[id].isbn != ""
  {
  }
}
