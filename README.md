# Recipes form: a Dafny model of its input-field state machine

The CookBook recipes form lists recipes in a grid. It adds a recipe built from
the Name and Description text boxes, the selected recipe type and an optional
user-picked image. Its Edit button prefills the fields from a grid row, its
Delete button removes a row by Id, and a Clear button resets the inputs. This
project models that state machine, not the rendering.

- `models.dfy`, module `Models`: the records `RecipeType`, `Recipe` and
  `RecipeWithType`, plus `FirstWithId`, the `FirstOrDefault` lookup by type Id.
- `repository.dfy`, module `Repository`: an abstract recipes store. It is a
  sequence of `StoredRecipe` rows, each with the store's Id. It provides the
  grid rows the store returns (`GetRecipes`) and the result of deleting an Id
  (`WithoutId`), with lemmas on how adds and deletes change both.
- `recipes_form.dfy`, module `RecipesFormUI`:
  - the validation message and lemmas about its contents;
  - `FindRecipeTypeIndex`, written as the source writes it: first matching
    type, then `IndexOf`;
  - class `RecipesForm`, whose fields are the text boxes, `ImageLocation`, the
    image the code assigns to the picture box, `_isUserImageAdded`, the type
    selector, the repository contents and the grid;
  - its handlers as methods with `modifies this`.

A `Valid()` invariant links the fields:

- the user-image flag is set only when a location is present;
- the selected index is -1 or a valid position;
- stored Ids are unique and below the next Id the store will hand out;
- the grid equals what the repository returns.

The last point models every refresh as complete. Each handler has
postconditions for its whole effect and for what it leaves unchanged.

Three client methods follow the handlers:

- `ClearTwice` clears twice and ends with the same contract as one clear.
- `SoupScenario` adds "Soup"/"Hot soup" of type "Dinner" to an empty
  repository. The grid gains that row with no image and the fields are reset.
  A recipe with an empty description is then rejected, and the Delete button
  empties the repository.
- `EditThenAddScenario` edits a stored recipe that has an image, then adds it.
  The result is a second recipe, not an update. Its image is null, because no
  file was picked: the source stores the picked file, never the image shown
  from the database.

Modelling choices that follow the code:

- WinForms text boxes never return null, so `string.IsNullOrEmpty` on their
  text is the test `== ""`.
- `ImageLocation` is `None` (null) until the dialog or a clear assigns it.
  Clearing sets it to the empty string, not back to null.
- Clearing does not touch the type selection.
- Editing leaves `ImageLocation` and the flag as they were. An Add after an
  Edit therefore stores whatever file was picked before the Edit, or no image.
- If the selector holds no item when Add runs, the source dereferences a null
  `SelectedItem` before calling the repository. The model returns
  `NoTypeSelected` and changes nothing.

## Model

| member | source | states |
|---|---|---|
| `Models.FirstWithId` | CookBook/UI/RecipesForm.cs:207 | None exactly when no type has the Id; otherwise a type with that Id that occurs at a position before which no type has that Id |
| `RecipesFormUI.IndexOf` | CookBook/UI/RecipesForm.cs:209 | None exactly when the item is absent; otherwise the first position holding the item |
| `RecipesFormUI.FindRecipeTypeIndex` | CookBook/UI/RecipesForm.cs:203-211 | the index is a type with the requested Id and no earlier type has that Id; None exactly when no type has it |
| `RecipesFormUI.MessageMentionsName` | CookBook/UI/RecipesForm.cs:103-107 | the validation message contains "Please enter name.\n\n" if and only if Name is empty |
| `RecipesFormUI.MessageMentionsDescription` | CookBook/UI/RecipesForm.cs:108-112 | the message contains "Please enter description.\n\n" if and only if Description is empty, and then that complaint ends the message |
| `RecipesFormUI.RecipesForm.IsValid` | CookBook/UI/RecipesForm.cs:98-118 | valid exactly when Name and Description are both non-empty; the message is the name complaint (if any) followed by the description complaint (if any), and is empty exactly when valid |
| `RecipesFormUI.RecipesForm.constructor` | CookBook/UI/RecipesForm.cs:35-64 | after construction and Load: empty fields, placeholder picture, flag false, the selector and grid show the repositories' contents |
| `RecipesFormUI.RecipesForm.ClearAllFields` | CookBook/UI/RecipesForm.cs:89-96 | Name, Description and ImageLocation become empty, the picture the placeholder, the flag false; type selection, repository and grid unchanged |
| `RecipesFormUI.ClearTwice` | CookBook/UI/RecipesForm.cs:137-140 | a second clear gives the state the first produced: the postcondition of two clears is that of one |
| `RecipesFormUI.RecipesForm.RecipePictureBoxClick` | CookBook/UI/RecipesForm.cs:120-135 | OK with a path sets ImageLocation to that path and the flag to true, nothing else changes; a cancelled dialog changes nothing |
| `RecipesFormUI.RecipesForm.AddRecipeBtnClick` | CookBook/UI/RecipesForm.cs:73-87 | invalid input is rejected with its message and nothing changes; otherwise exactly one recipe is appended with the old Name, Description and the selected type's Id, and it is added as one row at the end of the grid; image null when the flag was false, else the conversion of ImageLocation; fields then cleared |
| `RecipesFormUI.RecipesForm.FillFormForEdit` | CookBook/UI/RecipesForm.cs:191-201 | Name and Description taken from the row, picture its stored image or the placeholder, selection the index FindRecipeTypeIndex gives; flag, ImageLocation, repository and grid untouched |
| `RecipesFormUI.RecipesForm.RecipesGridCellClick` | CookBook/UI/RecipesForm.cs:173-189 | acts only on a data row and a button cell; "DeleteBtn" removes exactly the clicked row from the repository and the grid and changes no input field; "EditBtn" has FillFormForEdit's effect on the clicked row; every other click changes nothing |
| `Repository.WithoutId` | CookBook/UI/RecipesForm.cs:181 | after deleting an Id, a row remains exactly when it was there and carries another Id |
| `Repository.WithoutIdRemovesRow` | CookBook/UI/RecipesForm.cs:177-181 | with unique Ids, deleting the clicked row's Id removes that row and only that row, order kept |
| `Repository.GetRecipesAppend` | CookBook/UI/RecipesForm.cs:84-86 | after an add and a refresh the grid is the old grid plus the new recipe's row at the end |
| `Repository.GetRecipesRemove` | CookBook/UI/RecipesForm.cs:181-182 | after a delete and a refresh the grid is the old grid without the clicked row |

## Left out

- Rendering and layout are not modelled: `CustomizeGridAppearance`, the column
  set-up, `SizeMode` and `RowHeadersVisible` only configure the UI.
- `MessageBox.Show` and the repository's `OnError` subscription are UI side
  effects. The validation text is returned in `Rejected(message)`, and
  repository errors are not modelled.
- The file dialog is not modelled. It becomes the `DialogResult` argument, so
  the PNG/JPG/JPEG filter is not modelled either.
- The placeholder image file and its `Assembly`/`Path` lookup are I/O. The
  placeholder is the constant `Placeholder`.
- `ImageHelper.ConvertToDbImage` is outside the model. It becomes the
  function `convertToDbImage`, given at construction. Failures of a
  missing or malformed file are not modelled.
- `ImageHelper.ConvertFromDbImage` is outside the model. It leaves the tag
  `FromDb(blob)`.
- What the picture box loads by itself when `ImageLocation` is set is
  library behaviour. `picture` records only what the form code assigns to
  `Image`.
- Async and fire-and-forget behaviour is not modelled: each handler runs to
  completion. The grid always equals the repository's contents, so stale
  grids and double clicks during a pending call are not modelled.
- The repository implementation is not modelled. Ids are handed out in
  increasing order from `nextId`.
- The Type column of a grid row is assumed to hold the name of the first type
  with the recipe's type Id, or "" when there is none. The real join is the
  repository's.
- `AddRecipeTypeBtn_Click`, `RecipeTypesForm` and `RefreshRecipeTypes` after
  a dialog closes are outside the model. The type list stays as it was at
  Load, and dependency injection is not modelled.
- Load selects the first type when there is one. That is the combo box's
  binding behaviour, assumed rather than taken from the form's code.
- User typing into the text boxes and choosing in the selector are direct
  assignments to the fields `name`, `description` and `selectedTypeIndex`.
- `ClearAllFieldsBtn_Click` only calls `ClearAllFields`, so it is not a
  separate method.
- RecipesFormUI.RecipesForm.FillFormForEdit: when no type has the row's type
  Id, the source passes null to `ComboBox.Items.IndexOf`, whose result depends
  on the WinForms version. The model leaves the selection unchanged, keeps the
  Name, Description and picture already assigned, and reports
  `typeFound == false`.
- RecipesFormUI.RecipesForm.RecipesGridCellClick requires `rowIndex` below the
  number of grid rows. WinForms raises the event only for existing rows or the
  header (-1).
