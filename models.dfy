/** The records the recipe form exchanges with its repositories. */
module Models {

  datatype Option<+T> = None | Some(value: T)

  /** A persisted image, as the database column holds it. */
  type Bytes = seq<bv8>

  /** A category a recipe belongs to, created elsewhere and only read by the form. */
  datatype RecipeType = RecipeType(id: int, name: string)

  /** The record the form builds for one "add"; `image` is None for a null column. */
  datatype Recipe = Recipe(name: string, description: string, image: Option<Bytes>, recipeTypeId: int)

  /** One grid row: a stored recipe together with its Id and the name of its type. */
  datatype RecipeWithType = RecipeWithType(
    id: int, name: string, description: string, image: Option<Bytes>, recipeTypeId: int, typeName: string)

  /** The first recipe type whose Id is `id`, or None when there is none
      (the lookup `FirstOrDefault(rt => rt.Id == id)`). */
  function FirstWithId(types: seq<RecipeType>, id: int): (r: Option<RecipeType>)
    ensures r.None? <==> forall j :: 0 <= j < |types| ==> types[j].id != id
    ensures r.Some? ==> r.value.id == id
    ensures r.Some? ==>
      exists i :: 0 <= i < |types| && types[i] == r.value && forall j :: 0 <= j < i ==> types[j].id != id
  {
    if types == [] then None
    else if types[0].id == id then
      Some(types[0])
    else
      var r := FirstWithId(types[1..], id);
      assert forall j :: 1 <= j < |types| ==> types[j] == types[1..][j - 1];
      if r.Some? then
        var i' :| 0 <= i' < |types[1..]| && types[1..][i'] == r.value && forall j :: 0 <= j < i' ==> types[1..][j].id != id;
        assert types[i' + 1] == r.value && forall j :: 0 <= j < i' + 1 ==> types[j].id != id;
        r
      else
        r
  }
}
