/** The input-field state machine of the recipes form: validation, adding a
    recipe, clearing the fields, picking an image, the grid's Edit and Delete
    buttons, and prefilling the fields for an edit. */
module RecipesFormUI {
  import opened Models
  import opened Repository

  // ---------------------------------------------------------------------------
  // Validation message

  const NameMissing := "Please enter name.\n\n"
  const DescriptionMissing := "Please enter description.\n\n"

  /** The message shown when the form is not valid: one complaint per empty
      field, the name's first. */
  function ValidationMessage(name: string, description: string): string {
    (if name == "" then NameMissing else "") + (if description == "" then DescriptionMissing else "")
  }

  /** `part` occurs in `s` starting at position `i`. */
  ghost predicate OccursAt(s: string, part: string, i: int) {
    0 <= i <= |s| - |part| && s[i..i + |part|] == part
  }

  /** `part` occurs in `s` as a contiguous piece. */
  ghost predicate Contains(s: string, part: string) {
    exists i :: OccursAt(s, part, i)
  }

  lemma NameMissingNotInDescriptionMissing()
    ensures !Contains(DescriptionMissing, NameMissing)
  {
    forall i | 0 <= i <= |DescriptionMissing| - |NameMissing|
      ensures !OccursAt(DescriptionMissing, NameMissing, i)
    {
      var piece := DescriptionMissing[i..i + |NameMissing|];
      if i == 0 {
        assert piece[13] != NameMissing[13];
      } else {
        assert piece[0] == DescriptionMissing[i];
        assert DescriptionMissing[1] == 'l' && DescriptionMissing[2] == 'e' && DescriptionMissing[3] == 'a';
        assert DescriptionMissing[4] == 's' && DescriptionMissing[5] == 'e' && DescriptionMissing[6] == ' ';
        assert DescriptionMissing[7] == 'e';
      }
    }
  }

  /** The message complains about the name exactly when the name is empty. */
  lemma MessageMentionsName(name: string, description: string)
    ensures Contains(ValidationMessage(name, description), NameMissing) <==> name == ""
  {
    var m := ValidationMessage(name, description);
    if name == "" {
      assert OccursAt(m, NameMissing, 0);
    } else if description == "" {
      assert m == DescriptionMissing;
      NameMissingNotInDescriptionMissing();
    } else {
      assert m == "";
    }
  }

  /** The message complains about the description exactly when it is empty,
      and after the name's complaint when both are. */
  lemma MessageMentionsDescription(name: string, description: string)
    ensures Contains(ValidationMessage(name, description), DescriptionMissing) <==> description == ""
    ensures description == "" ==>
      ValidationMessage(name, description)[|ValidationMessage(name, description)| - |DescriptionMissing|..] == DescriptionMissing
  {
    var m := ValidationMessage(name, description);
    if description == "" {
      var k := |m| - |DescriptionMissing|;
      assert OccursAt(m, DescriptionMissing, k);
    } else {
      assert |m| < |DescriptionMissing|;
      assert forall i :: !OccursAt(m, DescriptionMissing, i);
    }
  }

  // ---------------------------------------------------------------------------
  // Looking up the recipe type to select

  /** The combo box's `Items.IndexOf(item)`: the first position holding `item`. */
  function IndexOf(items: seq<RecipeType>, item: RecipeType): (r: Option<nat>)
    ensures r.None? <==> item !in items
    ensures r.Some? ==> r.value < |items| && items[r.value] == item &&
                        forall j :: 0 <= j < r.value ==> items[j] != item
  {
    if items == [] then None
    else if items[0] == item then Some(0)
    else
      match IndexOf(items[1..], item)
      case None => None
      case Some(k) => Some(k + 1)
  }

  /** The position of the first recipe type with Id `recipeTypeId`, found as
      the source does it: the first matching type, then its index among the
      items. None when no type has that Id. */
  function FindRecipeTypeIndex(types: seq<RecipeType>, recipeTypeId: int): (r: Option<nat>)
    ensures r.None? <==> forall j :: 0 <= j < |types| ==> types[j].id != recipeTypeId
    ensures r.Some? ==> r.value < |types| && types[r.value].id == recipeTypeId
    ensures r.Some? ==> forall j :: 0 <= j < r.value ==> types[j].id != recipeTypeId
  {
    match FirstWithId(types, recipeTypeId)
    case None => None
    case Some(t) => IndexOf(types, t)
  }

  // ---------------------------------------------------------------------------
  // The form

  /** What the form code last assigned to the picture box's Image. */
  datatype Picture = Placeholder | FromDb(blob: Bytes)

  /** How the file dialog was closed. */
  datatype DialogResult = Ok(fileName: string) | Cancel

  /** The grid cell a click landed on, with the name of its column. */
  datatype Cell = TextBoxCell(column: string) | ButtonCell(column: string)

  datatype AddOutcome =
    | Rejected(message: string)  // validation failed; the message box text
    | NoTypeSelected             // valid, but the type selector holds no item
    | Added(recipe: Recipe)      // the recipe handed to the repository

  datatype CellAction = Deleted(id: int) | Edited(typeFound: bool) | Ignored

  class RecipesForm {
    /** `ImageHelper.ConvertToDbImage`: reads and encodes the image file at a path. */
    const convertToDbImage: string -> Bytes

    // input fields
    var name: string
    var description: string
    var imageLocation: Option<string>   // None while the property is null
    var picture: Picture
    var isUserImageAdded: bool
    var recipeTypes: seq<RecipeType>    // the type selector's data source
    var selectedTypeIndex: int          // -1 when nothing is selected

    // the recipes repository and the grid bound to it
    var recipes: seq<StoredRecipe>
    var nextId: int
    var grid: seq<RecipeWithType>

    ghost predicate Valid()
      reads this
    {
      && (isUserImageAdded ==> imageLocation.Some?)
      && -1 <= selectedTypeIndex < |recipeTypes|
      && UniqueIds(recipes) && IdsBelow(recipes, nextId)
      && grid == GetRecipes(recipes, recipeTypes)
    }

    /** Construction followed by Load: the selector and the grid show what the
        repositories hold, the picture is the placeholder, no user image. */
    constructor (types: seq<RecipeType>, stored: seq<StoredRecipe>, storeNextId: int, convert: string -> Bytes)
      requires UniqueIds(stored) && IdsBelow(stored, storeNextId)
      ensures Valid()
      ensures name == "" && description == "" && imageLocation == None && picture == Placeholder
      ensures !isUserImageAdded
      ensures recipeTypes == types && selectedTypeIndex == (if types == [] then -1 else 0)
      ensures recipes == stored && nextId == storeNextId
      ensures convertToDbImage == convert
    {
      convertToDbImage := convert;
      name, description := "", "";
      imageLocation := None;
      picture := Placeholder;
      isUserImageAdded := false;
      recipeTypes := types;
      selectedTypeIndex := if types == [] then -1 else 0;
      recipes, nextId := stored, storeNextId;
      grid := GetRecipes(stored, types);
    }

    /** The form is valid exactly when Name and Description are both non-empty;
        `message` is the text of the message box shown otherwise. */
    method IsValid() returns (isValid: bool, message: string)
      ensures isValid <==> name != "" && description != ""
      ensures message == ValidationMessage(name, description)
      ensures isValid <==> message == ""
    {
      isValid := true;
      message := "";
      if name == "" {
        isValid := false;
        message := message + NameMissing;
      }
      if description == "" {
        isValid := false;
        message := message + DescriptionMissing;
      }
    }

    /** Resets Name, Description, the image and the user-image flag; the type
        selection, the repository and the grid stay as they are. */
    method ClearAllFields()
      modifies this
      ensures name == "" && description == "" && imageLocation == Some("") && picture == Placeholder
      ensures !isUserImageAdded
      ensures recipeTypes == old(recipeTypes) && selectedTypeIndex == old(selectedTypeIndex)
      ensures recipes == old(recipes) && nextId == old(nextId) && grid == old(grid)
      ensures old(Valid()) ==> Valid()
    {
      name := "";
      description := "";
      imageLocation := Some("");
      picture := Placeholder;
      isUserImageAdded := false;
    }

    /** A dialog closed with OK records the chosen file and marks a user image;
        a cancelled dialog changes nothing. */
    method RecipePictureBoxClick(dialog: DialogResult)
      requires Valid()
      modifies this
      ensures Valid()
      ensures dialog.Ok? ==> imageLocation == Some(dialog.fileName) && isUserImageAdded
      ensures dialog.Ok? ==>
        && name == old(name) && description == old(description) && picture == old(picture)
        && recipeTypes == old(recipeTypes) && selectedTypeIndex == old(selectedTypeIndex)
        && recipes == old(recipes) && nextId == old(nextId) && grid == old(grid)
      ensures dialog.Cancel? ==> unchanged(this)
    {
      if dialog.Ok? {
        imageLocation := Some(dialog.fileName);
        isUserImageAdded := true;
      }
    }

    /** Add: an invalid form is rejected with its message and nothing changes;
        with no type selected nothing changes either; otherwise one recipe built
        from the fields is appended to the repository, the fields are cleared
        and the grid shows the repository again. */
    method AddRecipeBtnClick() returns (outcome: AddOutcome)
      requires Valid()
      modifies this
      ensures Valid()
      ensures outcome.Rejected? <==> old(name) == "" || old(description) == ""
      ensures outcome.Rejected? ==> outcome.message == ValidationMessage(old(name), old(description))
      ensures outcome.NoTypeSelected? <==> old(name) != "" && old(description) != "" && old(selectedTypeIndex) < 0
      ensures !outcome.Added? ==> unchanged(this)
      ensures outcome.Added? ==>
        && outcome.recipe.name == old(name)
        && outcome.recipe.description == old(description)
        && outcome.recipe.recipeTypeId == old(recipeTypes)[old(selectedTypeIndex)].id
        && outcome.recipe.image ==
             (if old(isUserImageAdded) then Some(convertToDbImage(old(imageLocation).value)) else None)
      ensures outcome.Added? ==>
        && recipes == old(recipes) + [StoredRecipe(old(nextId), outcome.recipe)]
        && nextId == old(nextId) + 1
        && grid == old(grid) + [ToRow(StoredRecipe(old(nextId), outcome.recipe), recipeTypes)]
        && name == "" && description == "" && imageLocation == Some("") && picture == Placeholder
        && !isUserImageAdded
        && recipeTypes == old(recipeTypes) && selectedTypeIndex == old(selectedTypeIndex)
    {
      var isValid, message := IsValid();
      if !isValid {
        return Rejected(message);
      }
      var image: Option<Bytes> := None;
      if isUserImageAdded {
        image := Some(convertToDbImage(imageLocation.value));
      }
      if selectedTypeIndex < 0 {
        return NoTypeSelected;
      }
      var recipeTypeId := recipeTypes[selectedTypeIndex].id;
      var newRecipe := Recipe(name, description, image, recipeTypeId);

      AppendFreshKeepsIds(recipes, StoredRecipe(nextId, newRecipe), nextId);
      GetRecipesAppend(recipes, StoredRecipe(nextId, newRecipe), recipeTypes);
      recipes := recipes + [StoredRecipe(nextId, newRecipe)];
      nextId := nextId + 1;
      ClearAllFields();
      grid := GetRecipes(recipes, recipeTypes);
      outcome := Added(newRecipe);
    }

    /** Copies a row's Name, Description and image into the fields and selects
        the first type with the row's type Id. When no type has that Id the
        selection is left alone and `typeFound` is false. The user-image flag,
        the image location and the repository are not touched. */
    method FillFormForEdit(row: RecipeWithType) returns (typeFound: bool)
      requires Valid()
      modifies this
      ensures Valid()
      ensures name == row.name && description == row.description
      ensures picture == (if row.image.Some? then FromDb(row.image.value) else Placeholder)
      ensures typeFound <==> exists j :: 0 <= j < |recipeTypes| && recipeTypes[j].id == row.recipeTypeId
      ensures typeFound ==> selectedTypeIndex == FindRecipeTypeIndex(recipeTypes, row.recipeTypeId).value
      ensures !typeFound ==> selectedTypeIndex == old(selectedTypeIndex)
      ensures isUserImageAdded == old(isUserImageAdded) && imageLocation == old(imageLocation)
      ensures recipeTypes == old(recipeTypes)
      ensures recipes == old(recipes) && nextId == old(nextId) && grid == old(grid)
    {
      name := row.name;
      description := row.description;
      if row.image.Some? {
        picture := FromDb(row.image.value);
      } else {
        picture := Placeholder;
      }
      var index := FindRecipeTypeIndex(recipeTypes, row.recipeTypeId);
      typeFound := index.Some?;
      if typeFound {
        selectedTypeIndex := index.value;
      }
    }

    /** A click on a button cell of a data row: "DeleteBtn" deletes exactly the
        clicked row from the repository, "EditBtn" fills the fields from it,
        and every other click does nothing. */
    method RecipesGridCellClick(rowIndex: int, cell: Cell) returns (action: CellAction)
      requires Valid()
      requires rowIndex < |grid|
      modifies this
      ensures Valid()
      ensures action.Deleted? <==> 0 <= rowIndex && cell == ButtonCell("DeleteBtn")
      ensures action.Edited? <==> 0 <= rowIndex && cell == ButtonCell("EditBtn")
      ensures action.Ignored? ==> unchanged(this)
      ensures action.Deleted? ==>
        && action.id == old(grid)[rowIndex].id
        && recipes == old(recipes)[..rowIndex] + old(recipes)[rowIndex + 1..]
        && grid == old(grid)[..rowIndex] + old(grid)[rowIndex + 1..]
        && nextId == old(nextId)
        && name == old(name) && description == old(description) && picture == old(picture)
        && imageLocation == old(imageLocation) && isUserImageAdded == old(isUserImageAdded)
        && recipeTypes == old(recipeTypes) && selectedTypeIndex == old(selectedTypeIndex)
      ensures action.Edited? ==>
        var row := old(grid)[rowIndex];
        && name == row.name && description == row.description
        && picture == (if row.image.Some? then FromDb(row.image.value) else Placeholder)
        && (action.typeFound <==> exists j :: 0 <= j < |recipeTypes| && recipeTypes[j].id == row.recipeTypeId)
        && (action.typeFound ==> selectedTypeIndex == FindRecipeTypeIndex(recipeTypes, row.recipeTypeId).value)
        && (!action.typeFound ==> selectedTypeIndex == old(selectedTypeIndex))
        && isUserImageAdded == old(isUserImageAdded) && imageLocation == old(imageLocation)
        && recipeTypes == old(recipeTypes)
        && recipes == old(recipes) && nextId == old(nextId)
    {
      action := Ignored;
      if rowIndex >= 0 && cell.ButtonCell? {
        var clickedRecipe := grid[rowIndex];
        if cell.column == "DeleteBtn" {
          WithoutIdRemovesRow(recipes, rowIndex);
          RemoveRowKeepsIds(recipes, rowIndex, nextId);
          GetRecipesRemove(recipes, rowIndex, recipeTypes);
          recipes := WithoutId(recipes, clickedRecipe.id);
          grid := GetRecipes(recipes, recipeTypes);
          action := Deleted(clickedRecipe.id);
        } else if cell.column == "EditBtn" {
          var typeFound := FillFormForEdit(clickedRecipe);
          action := Edited(typeFound);
        }
      }
    }
  }

  // ---------------------------------------------------------------------------
  // Clients

  /** Clearing a second time leaves the state the first clear produced. */
  method ClearTwice(form: RecipesForm)
    requires form.Valid()
    modifies form
    ensures form.Valid()
    ensures form.name == "" && form.description == "" && form.imageLocation == Some("")
    ensures form.picture == Placeholder && !form.isUserImageAdded
    ensures form.recipeTypes == old(form.recipeTypes) && form.selectedTypeIndex == old(form.selectedTypeIndex)
    ensures form.recipes == old(form.recipes) && form.nextId == old(form.nextId) && form.grid == old(form.grid)
  {
    form.ClearAllFields();
    var name, description, location, picture, flag := form.name, form.description, form.imageLocation, form.picture, form.isUserImageAdded;
    var types, selected, recipes, nextId, grid := form.recipeTypes, form.selectedTypeIndex, form.recipes, form.nextId, form.grid;
    form.ClearAllFields();
    assert form.name == name && form.description == description && form.imageLocation == location;
    assert form.picture == picture && form.isUserImageAdded == flag;
    assert form.recipeTypes == types && form.selectedTypeIndex == selected;
    assert form.recipes == recipes && form.nextId == nextId && form.grid == grid;
  }

  /** Adding "Soup" of type "Dinner" without an image to an empty repository. */
  method SoupScenario(convert: string -> Bytes)
  {
    var dinner := RecipeType(7, "Dinner");
    var form := new RecipesForm([dinner], [], 1, convert);
    form.name := "Soup";
    form.description := "Hot soup";
    var outcome := form.AddRecipeBtnClick();
    assert outcome == Added(Recipe("Soup", "Hot soup", None, 7));
    assert form.grid == [RecipeWithType(1, "Soup", "Hot soup", None, 7, "Dinner")];
    assert form.name == "" && form.description == "" && form.picture == Placeholder && !form.isUserImageAdded;

    // an empty description is rejected and the repository keeps its one row
    form.name := "Stew";
    outcome := form.AddRecipeBtnClick();
    assert outcome == Rejected(DescriptionMissing);
    assert |form.recipes| == 1 && form.name == "Stew";

    // deleting the one row empties the repository and the grid
    var action := form.RecipesGridCellClick(0, ButtonCell("DeleteBtn"));
    assert action == Deleted(1);
    assert form.recipes == [] && form.grid == [];
  }

  /** Edit prefills the fields but re-adding stores a new recipe, and the
      row's stored image is not carried over unless a file is picked. */
  method EditThenAddScenario(convert: string -> Bytes, blob: Bytes)
  {
    var lunch, dinner := RecipeType(3, "Lunch"), RecipeType(7, "Dinner");
    var stored := StoredRecipe(1, Recipe("Soup", "Hot soup", Some(blob), 7));
    var form := new RecipesForm([lunch, dinner], [stored], 2, convert);
    assert FirstWithId([lunch, dinner], 7) == Some(dinner);
    assert form.grid[0] == RecipeWithType(1, "Soup", "Hot soup", Some(blob), 7, "Dinner");

    var action := form.RecipesGridCellClick(0, ButtonCell("EditBtn"));
    assert action == Edited(true);
    assert form.name == "Soup" && form.selectedTypeIndex == 1 && form.picture == FromDb(blob);

    var outcome := form.AddRecipeBtnClick();
    assert outcome == Added(Recipe("Soup", "Hot soup", None, 7));
    assert form.recipes == [stored, StoredRecipe(2, Recipe("Soup", "Hot soup", None, 7))];

    // a click on the Name column or on the header row does nothing
    action := form.RecipesGridCellClick(0, TextBoxCell("Name"));
    assert action == Ignored;
    action := form.RecipesGridCellClick(-1, ButtonCell("DeleteBtn"));
    assert action == Ignored && |form.recipes| == 2;
  }
}
