/** An abstract view of the recipes repository the form talks to: the stored
    rows as a sequence, the join that produces grid rows, and what deleting
    by Id does to the stored rows. */
module Repository {
  import opened Models

  /** A recipe as the store holds it, under the Id the store gave it. */
  datatype StoredRecipe = StoredRecipe(id: int, recipe: Recipe)

  /** No two stored rows share an Id. */
  ghost predicate UniqueIds(s: seq<StoredRecipe>) {
    forall i, j :: 0 <= i < j < |s| ==> s[i].id != s[j].id
  }

  /** Every stored Id is below the Id the store hands out next. */
  ghost predicate IdsBelow(s: seq<StoredRecipe>, bound: int) {
    forall i :: 0 <= i < |s| ==> s[i].id < bound
  }

  /** The name shown in the grid's Type column: that of the first type with the recipe's type Id. */
  function TypeName(types: seq<RecipeType>, typeId: int): string {
    match FirstWithId(types, typeId)
    case Some(t) => t.name
    case None => ""
  }

  function ToRow(s: StoredRecipe, types: seq<RecipeType>): RecipeWithType {
    RecipeWithType(s.id, s.recipe.name, s.recipe.description, s.recipe.image, s.recipe.recipeTypeId,
                   TypeName(types, s.recipe.recipeTypeId))
  }

  /** What `GetRecipes` returns: one grid row per stored recipe, in store order. */
  function GetRecipes(s: seq<StoredRecipe>, types: seq<RecipeType>): seq<RecipeWithType> {
    seq(|s|, i requires 0 <= i < |s| => ToRow(s[i], types))
  }

  /** Storing one more recipe adds exactly its row at the end of the grid. */
  lemma GetRecipesAppend(s: seq<StoredRecipe>, x: StoredRecipe, types: seq<RecipeType>)
    ensures GetRecipes(s + [x], types) == GetRecipes(s, types) + [ToRow(x, types)]
  {
  }

  /** Removing stored row `i` removes exactly grid row `i`. */
  lemma GetRecipesRemove(s: seq<StoredRecipe>, i: nat, types: seq<RecipeType>)
    requires i < |s|
    ensures GetRecipes(s[..i] + s[i + 1..], types) == GetRecipes(s, types)[..i] + GetRecipes(s, types)[i + 1..]
  {
  }

  /** The stored rows after `DeleteRecipe(id)`: every row with that Id is gone, order is kept. */
  function WithoutId(s: seq<StoredRecipe>, id: int): (r: seq<StoredRecipe>)
    ensures |r| <= |s|
    ensures forall x :: x in r <==> x in s && x.id != id
  {
    if s == [] then []
    else if s[0].id == id then WithoutId(s[1..], id)
    else [s[0]] + WithoutId(s[1..], id)
  }

  /** Deleting an Id no row carries leaves the store as it was. */
  lemma {:induction false} WithoutAbsentId(s: seq<StoredRecipe>, id: int)
    requires forall k :: 0 <= k < |s| ==> s[k].id != id
    ensures WithoutId(s, id) == s
  {
    if s != [] {
      WithoutAbsentId(s[1..], id);
      assert [s[0]] + s[1..] == s;
    }
  }

  /** With unique Ids, deleting the Id of row `i` removes exactly row `i`. */
  lemma {:induction false} WithoutIdRemovesRow(s: seq<StoredRecipe>, i: nat)
    requires UniqueIds(s)
    requires i < |s|
    ensures WithoutId(s, s[i].id) == s[..i] + s[i + 1..]
  {
    var id := s[i].id;
    if i == 0 {
      WithoutAbsentId(s[1..], id);
    } else {
      WithoutIdRemovesRow(s[1..], i - 1);
      assert s[1..][i - 1] == s[i];
      assert s[1..][..i - 1] + s[1..][i..] == s[1..i] + s[i + 1..];
      assert [s[0]] + s[1..i] == s[..i];
    }
  }

  /** Removing one row keeps the Ids unique and below the same bound. */
  lemma RemoveRowKeepsIds(s: seq<StoredRecipe>, i: nat, bound: int)
    requires UniqueIds(s) && IdsBelow(s, bound)
    requires i < |s|
    ensures UniqueIds(s[..i] + s[i + 1..]) && IdsBelow(s[..i] + s[i + 1..], bound)
  {
  }

  /** Appending a row under a fresh Id keeps the Ids unique. */
  lemma AppendFreshKeepsIds(s: seq<StoredRecipe>, x: StoredRecipe, bound: int)
    requires UniqueIds(s) && IdsBelow(s, bound)
    requires x.id == bound
    ensures UniqueIds(s + [x]) && IdsBelow(s + [x], bound + 1)
  {
  }
}
