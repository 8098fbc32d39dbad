# Pāṇḍitya, modelled in Dafny

Pāṇḍitya is a web application for exploring the works and authors of the Pandit
database of Sanskrit literature. It also links works to e-text collections such as
GRETIL, DCS and SARIT. This project models its computational core and proves properties
of the model:

- **The entity builder** (`create_entities` in `utils/transform.py`).
  - It folds the rows of the works CSV into a dictionary `entities_by_id` of works and
    authors.
  - As it goes, it records authorship and base-text/commentary links on both ends.
  - A post-processing pass then drops authors without works, writes each author's
    discipline summary, and gives undated works the years of their first dated author.
- **The entity records** (`data_models.py`):
  - `Work` and `Author`, with their constructor defaults;
  - `to_dict` and `from_dict`;
  - the factory `create_from_dict`.
- **The request logic of the API server** (`flask_app.py`):
  - the input validators;
  - the edge relationship label;
  - the collection queries over the e-text link table (by collection, unique to one, overlap
    of two);
  - the author lookup for a list of works;
  - the by-work query.
- **The e-text summary** and the `VERSION`-line parse (`utils/utils.py`).
- **The node context menu of the graph view** (`static/js/graph.js`):
  - `basename`;
  - the per-collection label extractors and `getDisplayLabel`;
  - the submenu built from a work's links;
  - the node radius;
  - the placement that keeps the menu on screen.

## How the model is built

The model keeps the source's form: code that mutates state becomes imperative Dafny, and
pure code becomes functions.

- **Entity builder.** `Transform.EntityBuilder` is a class whose field `entities` is
  `entities_by_id`. Its methods update that field row by row, pair by pair and entity by
  entity, as the Python loops do. Each method is proved to leave the dictionary as a
  function of the old one:
  - the row fold follows `RowFold`;
  - the post-processing pass follows `PostPass`.

  The properties are proved about those functions:
  - `Linkage`: the store's shape is kept, with every link recorded on both ends and no
    duplicates;
  - `RowEffects` and `FoldEffects`: the effect of one row, and what survives later rows;
  - `PostPass`: the author pruning, the discipline summary and the work years.
- **Entity values.** Entities are datatype values. Where the Python code holds a reference
  (`W`, `A`, `BT`) and mutates it, the methods re-read the entry before each change. This
  makes a base text that is the work itself come out as the shared object does.
- **Loops in the other files.** `from_dict`'s `setattr` loop, the loops of
  `get_works_by_collection`, the overlap and `get_author_ids_for_work_ids`, the nested
  counting loops of `summarize_etext_links`, and the menu loops of `graph.js` are methods
  with loop invariants. Each is proved equal to a function whose meaning is proved in
  lemmas.
- **Parameters instead of globals.** The in-memory data the server loads at start-up
  (`ENTITIES_BY_ID`, `ETEXT_LINKS`) are parameters.
- **The decoder.** `decodeURIComponent` is a function parameter `decode`.

## Model

| member | source | states |
|---|---|---|
| DataModels.AttributesListDeclared | data_models.py:42-45 | `ATTRIBUTES` of `Work` (and of `Author`) lists exactly the attributes its class has, each once |
| DataModels.SetAttr | data_models.py:24 | `setattr` changes the one attribute to the given value and no other attribute of the entity |
| DataModels.AttributesDetermine | data_models.py:6-12 | two entities of one class that agree on every attribute in `ATTRIBUTES` are equal: the attributes are the whole record |
| DataModels.New | data_models.py:46-88 | `Work(id)` and `Author(id)` build an entity of the class asked for, with the given id and a `type` naming that class |
| DataModels.ToDictKeys | data_models.py:37-38 | `to_dict` writes exactly the class's attributes whose value is not `None`, each with its value (`ToDict`) |
| DataModels.ToDictIs | data_models.py:65-75 | any dictionary with exactly those keys and values is what `to_dict` returns |
| DataModels.NewWorkDict | data_models.py:47-55 | a fresh `Work` writes its id, the type `"work"`, empty name and aka, and its three empty lists; the `None` discipline and years are left out (`NewWork`) |
| DataModels.NewAuthorDict | data_models.py:83-88 | a fresh `Author` writes its id, the type `"author"`, empty name and aka, and its empty `work_ids` (`NewAuthor`) |
| DataModels.ToDictWellTyped | data_models.py:98-105 | what `to_dict` writes always has every attribute in the shape its field declares, and always has the id |
| DataModels.CopyAttributes | data_models.py:60-62 | the `setattr` loop: each attribute in both the data and the list takes the data's value; every other attribute keeps its old value; the class is kept |
| DataModels.FromDict | data_models.py:58-63 | raises exactly when `data` has no `"id"`; otherwise it builds the entity of the class whose attributes present in `data` are copied and whose others keep the constructor defaults |
| DataModels.CreateFromDict | data_models.py:28-35 | lower-cased `type` `"work"` gives a Work and `"author"` an Author, each built by `from_dict` (so a missing id is its `KeyError`); any other value, a missing type included, is the `ValueError` naming it |
| DataModels.CreatedIsTagged | data_models.py:29-33 | every entity `create_from_dict` returns has a `type` that names its own class in some letter case |
| DataModels.TypeKeptVerbatim | data_models.py:21-24 | `type` is stored as given: `{"id": i, "type": "WORK"}` gives a Work whose type is `"WORK"` |
| DataModels.NullDefaults | data_models.py:47-55 | an attribute that reads as `None` has `None` as its constructor default too, so leaving it out of `to_dict` loses nothing |
| DataModels.RoundTrip | data_models.py:58-75 | for every entity whose `type` names its class, `create_from_dict(e.to_dict())` rebuilds `e` exactly |
| Text.Strip | utils/transform.py:52 | `strip()` returns `s` minus exactly its leading and trailing whitespace: a window `s[i..j]` with only whitespace outside it (`TrimmedFrom`), the interior kept as it is, and no whitespace at either end of the result |
| Text.Split | flask_app.py:406 | `split(sep)` gives at least one piece, none holding the separator |
| Text.LowerAt | utils/transform.py:59 | `lower()` maps each character in place, `A`-`Z` to `a`-`z`, every other character to itself (`Lower`) |
| Text.JoinSplit | utils/utils.py:36 | joining the pieces of `split(sep)` with `sep` gives the string back (`Join`) |
| Text.SplitJoin | utils/utils.py:36 | splitting a join of separator-free pieces gives the pieces back |
| Text.IntRoundTrip | utils/transform.py:65 | `int(str(i)) == i` for every integer (`ParseInt`) |
| Text.SortedStrings | flask_app.py:241 | `sorted` of a set of strings lists each element once, in strictly increasing code-point order |
| RowFold.KeepNonEmpty | utils/transform.py:52 | every item kept is non-empty and has no surrounding whitespace |
| RowFold.SplitField | utils/transform.py:51-52 | every item of `split_field` is non-empty, has no surrounding whitespace and holds no comma |
| RowFold.SplitFieldMembers | utils/transform.py:51-52 | `x` is in `split_field(field)` exactly when it is the non-empty strip of some comma-separated piece; such an `x` has no comma and no surrounding whitespace |
| RowFold.SplitFieldOfJoin | utils/transform.py:51-52 | a cell written as comma-joined clean ids reads back as exactly those ids, in order |
| RowFold.Zip | utils/transform.py:87 | `zip` pairs the lists index by index, up to the shorter one |
| RowFold.Years | utils/transform.py:63-65 | both years are set from one test: parsed as integers when the stripped "Highest Year" is not blank, both `None` otherwise, whatever "Lowest Year" holds |
| RowFold.ParseRowMeaning | utils/transform.py:57-68 | the lower-cased stripped content type alone decides: `work` gives a work row, `person` a person row, anything else is skipped; both kinds carry the stripped id and name and the years `Years` reads (`ParseRow`) |
| RowFold.ParsedIdsClean | utils/transform.py:84-105 | every id and name a work row pairs is a non-empty stripped cell piece with no comma |
| RowFold.AppendNew | utils/transform.py:98-101 | `if x not in ids: ids.append(x)` extends the list at its end, puts `x` in it, adds nothing else and never creates a duplicate |
| RowFold.LinkAuthor | utils/transform.py:87-101 | one author pair adds at most the author's id, which is an author, and keeps every other entity's class |
| RowFold.LinkAuthors | utils/transform.py:87-101 | the author loop keeps the classes of stored entities, and adds only paired ids, each as an author |
| RowFold.LinkBaseText | utils/transform.py:106-120 | one base-text pair adds at most the base text's id, created as a Work, and keeps every class |
| RowFold.LinkBaseTexts | utils/transform.py:106-120 | the base-text loop adds only paired ids, each as a work |
| RowFold.WorkScalars | utils/transform.py:71-81 | the work row's id is stored as a Work afterwards, and no other class changes |
| RowFold.WithAuthors | utils/transform.py:71-101 | after the scalars and the author pairs, the work is stored and every new id is an author the row names |
| RowFold.ApplyWorkRow | utils/transform.py:66-120 | a work row keeps every class and adds only ids it uses, each in the role it uses it in |
| RowFold.ApplyPersonRow | utils/transform.py:122-136 | a person row adds only its own id, as an author |
| RowFold.ApplyRow | utils/transform.py:57-137 | one row, whatever its content type, keeps every class and adds only the ids it uses, in their roles |
| RowFold.ConformsApplicable | utils/transform.py:90-99 | when no id is used both as a work and as an author, every row meets a store built from the rows without a kind clash |
| RowFold.ApplyConforms | utils/transform.py:57-137 | applying a row keeps the store in agreement with the roles the rows give each id |
| Linkage.EmptyValid | utils/transform.py:49 | the empty dictionary is in the valid shape |
| Linkage.LinkAuthorWellFormed | utils/transform.py:87-101 | linking an author keeps every entity under its own id and type, and keeps every list free of duplicates |
| Linkage.LinkAuthorAuthors | utils/transform.py:96-101 | after linking, every author of a work is a stored author that lists the work |
| Linkage.LinkAuthorWorks | utils/transform.py:96-101 | after linking, every work of an author is a stored work that lists the author |
| Linkage.LinkAuthorValid | utils/transform.py:87-101 | one author pair keeps the whole valid shape |
| Linkage.LinkAuthorKeepsLineage | utils/transform.py:87-101 | linking an author touches no base-text or commentary list |
| Linkage.LinkBaseTextWellFormed | utils/transform.py:106-120 | linking a base text keeps ids, types and duplicate-free lists |
| Linkage.LinkBaseTextBases | utils/transform.py:115-120 | after linking, every base text of a work is a stored work that lists it as a commentary |
| Linkage.LinkBaseTextCommentaries | utils/transform.py:115-120 | after linking, every commentary of a work is a stored work that lists it as a base text, also when the base text is the work itself |
| Linkage.LinkBaseTextValid | utils/transform.py:106-120 | one base-text pair keeps the whole valid shape |
| Linkage.LinkBaseTextKeepsAuthorship | utils/transform.py:106-120 | linking a base text touches no author or work list |
| Linkage.LinkAuthorsValid | utils/transform.py:84-101 | the author loop keeps the valid shape |
| Linkage.LinkBaseTextsValid | utils/transform.py:104-120 | the base-text loop keeps the valid shape |
| Linkage.WorkScalarsValid | utils/transform.py:71-81 | updating a work's scalars keeps the valid shape |
| Linkage.WorkScalarsKeepLinks | utils/transform.py:71-81 | updating a work's scalars touches none of its lists; a new work's lists are empty |
| Linkage.PersonRowValid | utils/transform.py:122-136 | a person row keeps the valid shape |
| Linkage.ApplyRowValid | utils/transform.py:57-137 | every row keeps the valid shape |
| Linkage.Fold | utils/transform.py:57-137 | after every prefix of the rows the dictionary is valid: links on both ends, ids as keys, constructor types, no duplicates |
| Linkage.FoldRows | utils/transform.py:57-137 | the dictionary the whole row loop leaves is valid |
| FoldEffects.FoldGrows | utils/transform.py:57-137 | later rows only add entities and extend link lists |
| FoldEffects.RowLinksPersist | utils/transform.py:84-120 | after the last row, each work row's work and every author and base text it paired still list each other |
| FoldEffects.ApplyRowUndisciplined | utils/transform.py:57-137 | no row writes an author's `disciplines`: a store with every author at `None` stays so after any applicable row |
| FoldEffects.FoldUndisciplined | utils/transform.py:57-137 | after every prefix of the rows, every author's `disciplines` is still the constructor's `None` |
| RowEffects.LinkAuthorGrows | utils/transform.py:96-101 | one author pair only extends link lists |
| RowEffects.LinkAuthorsGrows | utils/transform.py:84-101 | the author loop only extends link lists |
| RowEffects.LinkAuthorLinks | utils/transform.py:96-101 | after one pair the work lists the author, the author lists the work, and the author has the pair's name |
| RowEffects.LinkAuthorsLinks | utils/transform.py:84-101 | every zip-paired author is a stored author, and it and the work list each other |
| RowEffects.LinkAuthorsKeeps | utils/transform.py:87-101 | entities the pairs do not name are unchanged, and the work's scalar fields are unchanged |
| RowEffects.LinkAuthorsLastName | utils/transform.py:97 | an author no later pair repeats ends with its pair's name |
| RowEffects.LinkBaseTextGrows | utils/transform.py:115-120 | one base-text pair only extends link lists |
| RowEffects.LinkBaseTextsGrows | utils/transform.py:104-120 | the base-text loop only extends link lists |
| RowEffects.LinkBaseTextLinks | utils/transform.py:115-120 | after one pair the work lists the base text, the base text lists the work as a commentary, and the base text has the pair's name |
| RowEffects.LinkBaseTextKeepsName | utils/transform.py:116 | a base-text pair renames no entity but the base text |
| RowEffects.LinkBaseTextsLinks | utils/transform.py:104-120 | every zip-paired base text is a stored work, and it and the commentary list each other |
| RowEffects.LinkBaseTextsKeeps | utils/transform.py:104-120 | entities the pairs do not name, other than the work, are unchanged |
| RowEffects.LinkBaseTextsLastName | utils/transform.py:116 | a base text no later pair repeats ends with its pair's name, even when it is the work itself |
| RowEffects.WorkScalarsGrows | utils/transform.py:71-81 | re-reading a work overwrites its name, aka, discipline and years, keeps its lists, and changes no other entity |
| RowEffects.AuthorPairsFit | utils/transform.py:84-101 | a row's author pairs never name the row's own work, or any stored work |
| RowEffects.WithAuthorsEffect | utils/transform.py:71-101 | after the author loop every pair is linked, unnamed entities are untouched, and the work keeps the scalars just written |
| RowEffects.WorkRowLinks | utils/transform.py:66-120 | after a work row every author and base-text pair is linked both ways, and every entity it names nowhere is unchanged |
| RowEffects.WorkRowScalars | utils/transform.py:71-81 | the row's work ends with the row's aka, discipline and years, and with its name unless a base-text pair renames it |
| RowEffects.BaseTextsKeepScalars | utils/transform.py:104-120 | the base-text loop never touches a work's aka, discipline or years |
| RowEffects.WorkRowAuthorName | utils/transform.py:97 | an author that no later pair of the row repeats ends the row with its pair's name |
| RowEffects.WorkRowBaseTextName | utils/transform.py:116 | a base text that no later pair of the row repeats ends the row with its pair's name |
| RowEffects.PersonRowEffect | utils/transform.py:122-136 | a person row overwrites its author's name, aka, social identifiers and years, keeps its work list, and leaves other entities alone |
| RowEffects.ApplyRowGrows | utils/transform.py:57-137 | every row only adds entities and extends link lists |
| RowEffects.FoldStepGrows | utils/transform.py:57-137 | each step of the row loop only adds entities and extends link lists |
| PostPass.Bump | utils/transform.py:151 | `counter[d] += 1` raises `d`'s count by one, leaves every other count, and keeps a valid counter |
| PostPass.TallyOf | utils/transform.py:146-151 | the counter counts each discipline exactly as often as it occurs, non-empty, among the works found, and has no other key |
| PostPass.SortTally | utils/transform.py:154 | the sort is a permutation ordered by count descending, then name ascending |
| PostPass.SortedUnique | utils/transform.py:154 | there is only one such ordering of a counter's items, so the summary does not depend on the counting order |
| PostPass.Entries | utils/transform.py:156 | one `"d (n)"` entry per item, in order |
| PostPass.Entry | utils/transform.py:156 | `"d (n)"` reads back: `d`, then ` (`, then the decimal digits of `n`, then `)` |
| PostPass.FirstDated | utils/transform.py:159-165 | the first author in the list with a year, or none when no author has one |
| PostPass.FirstDatedIs | utils/transform.py:160-165 | a dated author with no dated author before it is the one the loop stops at |
| PostPass.FinishWritesLittle | utils/transform.py:140-165 | the pass writes only an author's `disciplines` and a work's author years |
| PostPass.AuthorSummary | utils/transform.py:146-156 | `disciplines` stays as it was when no work has a discipline; otherwise it is the `", "`-join over the counted items sorted by (-count, name); this is what `Summary` renders |
| PostPass.OccursWhere | utils/transform.py:146-151 | a discipline is counted for an author exactly when one of its listed works is stored with that discipline |
| PostPass.AuthorDisciplineNone | utils/transform.py:146-156 | an author that arrives with `disciplines` at `None` keeps `None` exactly when none of its works has a non-empty discipline |
| PostPass.FinishedDisciplines | utils/transform.py:140-156 | after the pass over a store whose authors all have `disciplines` at `None`, a kept author has `None` exactly when none of its works has a discipline |
| PostPass.WorkYears | utils/transform.py:157-165 | a work with a year, or with no dated author, is unchanged; otherwise it takes both years of its first dated author |
| PostPass.FinishedDrops | utils/transform.py:140-144 | no work is removed, and an author is removed exactly when its `work_ids` is empty (`Finished`) |
| PostPass.FinishedValid | utils/transform.py:140-165 | the pass keeps the valid shape: no link points at a dropped author |
| PostPass.PrunedValid | utils/transform.py:143-144 | any copy of a valid store that keeps the works and the authors with works is valid |
| Transform.EntityBuilder.constructor | utils/transform.py:49 | `entities_by_id` starts empty |
| Transform.EntityBuilder.SetWorkScalars | utils/transform.py:71-81 | the dictionary afterwards is `WorkScalars` of the one before |
| Transform.EntityBuilder.AddAuthor | utils/transform.py:87-101 | the dictionary afterwards is `LinkAuthor` of the one before |
| Transform.EntityBuilder.AddAuthors | utils/transform.py:84-101 | the loop leaves `LinkAuthors` of the dictionary before |
| Transform.EntityBuilder.AddBaseText | utils/transform.py:106-120 | the dictionary afterwards is `LinkBaseText` of the one before, also when the base text is the work itself |
| Transform.EntityBuilder.AddBaseTexts | utils/transform.py:104-120 | the loop leaves `LinkBaseTexts` of the dictionary before |
| Transform.EntityBuilder.SetPersonScalars | utils/transform.py:122-136 | the dictionary afterwards is `ApplyPersonRow` of the one before |
| Transform.EntityBuilder.AddWorkRow | utils/transform.py:66-120 | the dictionary afterwards is `ApplyWorkRow` of the one before |
| Transform.EntityBuilder.AddRow | utils/transform.py:57-137 | one row leaves `ApplyRow` of the dictionary before |
| Transform.EntityBuilder.CountDisciplines | utils/transform.py:147-151 | the counter loop computes `TallyOf` over the live dictionary |
| Transform.EntityBuilder.FindDatedAuthor | utils/transform.py:159-165 | the loop with its `break` finds `FirstDated` |
| Transform.EntityBuilder.SummariseAuthor | utils/transform.py:146-156 | the author afterwards is `FinishAuthor` of the one before |
| Transform.EntityBuilder.FillAuthorYears | utils/transform.py:157-165 | the work afterwards is `FinishWork` of the one before |
| Transform.EntityBuilder.VisitAuthor | utils/transform.py:141-156 | dropping or summarising one author keeps the pass's loop invariant |
| Transform.EntityBuilder.VisitWork | utils/transform.py:157-165 | updating one work keeps the pass's loop invariant |
| Transform.EntityBuilder.PostProcess | utils/transform.py:140-165 | visiting the snapshot in any order, reading the live dictionary, leaves `Finished` of the dictionary before |
| Transform.MidwayTally | utils/transform.py:149 | partway through the pass the live dictionary yields the snapshot's discipline counts |
| Transform.MidwayAuthors | utils/transform.py:160-162 | partway through the pass every listed author of a work is still stored with its snapshot years |
| Transform.CreateEntities | utils/transform.py:49-165 | the result is the post-pass of the row fold, and it is valid; each author's `disciplines` is `None` exactly when none of its works has a discipline |
| FlaskApp.ValidateListInput | flask_app.py:51-61 | a leading `[` gives the bracket error even when there are spaces; otherwise a space gives the whitespace error; otherwise it accepts; a missing or empty parameter raises on `[0]` |
| FlaskApp.JoinedListAccepted | flask_app.py:51-61 | every comma-joined list of ids without spaces, not starting with `[`, is accepted |
| FlaskApp.AcceptedIsJoinedList | flask_app.py:51-61 | what is accepted is such a list: it splits at its commas into pieces that join back to it |
| FlaskApp.WorkIdsOfJoin | flask_app.py:406 | a comma-joined list of non-empty ids without commas or surrounding spaces reads back as exactly those ids, in order (`WorkIdsOf`) |
| FlaskApp.AnswerIds | flask_app.py:406-412 | never raises; "No IDs provided" exactly for an empty parameter; otherwise the link data of exactly the requested ids the table has, each with its entry |
| FlaskApp.ByWork | flask_app.py:400-412 | as written, the route raises exactly for a missing or empty parameter |
| FlaskApp.NoIdsUnreachable | flask_app.py:400-412 | as written, "No IDs provided" is never answered: a missing or empty parameter makes the validator raise |
| FlaskApp.ValidateListInputGuarded | flask_app.py:51-61 | with the guard, every non-empty parameter is judged as before |
| FlaskApp.ByWorkGuardedMeaning | flask_app.py:400-412 | with the guard the route never raises; it answers "No IDs provided" exactly for a missing or empty parameter; otherwise it answers as written, returning the table entries of exactly the requested ids (`ByWorkGuarded`) |
| FlaskApp.HopCount | flask_app.py:134 | an accepted boolean `hops` counts as `1` or `0`, an accepted integer as itself |
| FlaskApp.ValidateSubgraphInputs | flask_app.py:131-138 | the first failing check, in order (no centre, bad hops, `exclude_list` not a list), names the error; `None` exactly when all pass; `HopsAccepted` is the `hops` test |
| FlaskApp.EdgeRelationship | flask_app.py:141-148 | (author, work) is authorship and (work, work) inspiration, each exactly; the `KeyError` names the first missing id |
| FlaskApp.RecordedEdgesLabelled | flask_app.py:141-145 | in a valid store every authorship and base-text edge gets its relationship, never the logged `None` |
| FlaskApp.FirstDangling | flask_app.py:190-193 | the position of the first edge naming a missing id, with none before it |
| FlaskApp.EdgeRecords | flask_app.py:190-212 | the edge loop of lines 190-193 and the 400 handler of 210-212 only (the node loop of 179-189, which indexes the table first, is not this member): every edge gets its source, target and relationship in order; otherwise the 400 `Invalid ID: 'k'` (`InvalidId`) names the first missing id |
| FlaskApp.GetWorksByCollection | flask_app.py:224-256 | returns `WorksByCollection` of the inputs |
| FlaskApp.HideOtherCollections | flask_app.py:250-251 | the loop keeps every work and reduces each to `{collection: links}` |
| FlaskApp.CollectionQuery | flask_app.py:237-256 | `all` in any case returns the whole table, before validity is checked; an unknown collection is the 400 error; otherwise exactly the works with the collection, minus `...`, each reduced to it unless the others are asked for; the valid collections are `ValidCollections` |
| FlaskApp.InvalidCollectionListsOptions | flask_app.py:241 | the 400 message lists every valid collection once, in sorted order (`InvalidCollection`) |
| FlaskApp.UniqueToCollection | flask_app.py:318-322 | a work is returned exactly when the requested collection is its only one, with that entry |
| FlaskApp.UniqueWithinQuery | flask_app.py:318-322 | a unique work other than `...` is in the collection query with the same value |
| FlaskApp.OverlapBetween | flask_app.py:360-373 | the loop fills the overlap and the two "only in" answers as `Overlap` and `OnlyIn` define them |
| FlaskApp.OverlapPartition | flask_app.py:364-373 | each work with either collection lands in exactly one answer, and a work with neither in none; the overlap holds both entries; naming one collection twice leaves both "only" answers empty |
| FlaskApp.UniqueIsOnlyIn | flask_app.py:364-373 | a work unique to one collection is "only in" it against any other collection |
| FlaskApp.AuthorsOfWorksMeaning | flask_app.py:415-422 | succeeds exactly when every id names a stored work, and then yields exactly the union of their `author_ids`; otherwise fails at the first id that is missing (`KeyError`) or names an author (wrapped `AttributeError`) |
| FlaskApp.AuthorsOfWorksOk | flask_app.py:418-421 | the lookup succeeds exactly when every id names a stored work |
| FlaskApp.AuthorsOfWorksValue | flask_app.py:418-419 | when it succeeds, an author is found exactly when some listed work names it |
| FlaskApp.AuthorsOfWorksError | flask_app.py:418-421 | when it fails, the error is that of the first id that is missing or names an author, every id before it being a work; the author case is `NotAWork` |
| FlaskApp.AuthorsOfWorksAreAuthors | flask_app.py:418-419 | in a valid store every author found is a stored author of one of the works |
| FlaskApp.GetAuthorIdsForWorkIds | flask_app.py:415-422 | the loop raises what `AuthorsOfWorks` raises, or returns a duplicate-free list of exactly its authors |
| Utils.VersionValue | utils/utils.py:36-50 | a line raises `list index out of range` exactly when it has no `=`; otherwise the value has no quotes and no `=` |
| Utils.VersionValueMeaning | utils/utils.py:36 | for every line whose stripped form is `a=b` followed by nothing or by another `=`, with no `=` in `a` or `b`, the value is `b` stripped, with every `'` and then every `"` removed |
| Utils.VersionLineRoundTrip | utils/utils.py:36-50 | reading `key = 'value'` or `key = "value"` gives `value` back |
| Utils.Unquote | utils/utils.py:36 | removing a quote character drops the enclosing quotes when they are that character, and nothing else |
| Utils.CountEffect | utils/utils.py:61-62 | counting adds the work and the links to one collection and changes no other |
| Utils.CountGroupsEffect | utils/utils.py:60-62 | a dict entry registers its work only when it has a sub-category, and adds all its sub-lists' lengths |
| Utils.CountEntryEffect | utils/utils.py:59-67 | a list registers its work and its length; a dict its sub-lists; anything else nothing |
| Utils.CountWorkEffect | utils/utils.py:58-67 | one work joins exactly the collections it lists and adds its links to each |
| Utils.CountTableEffect | utils/utils.py:57-67 | per collection, the counters hold exactly the works listing it and all its links (`CountTable`) |
| Utils.CountWorkLinks | utils/utils.py:58-67 | the loop over one work's collections computes `CountWork` |
| Utils.CountGroupLinks | utils/utils.py:60-62 | the loop over a dict entry's sub-lists computes `CountGroups` |
| Utils.SortByWorks | utils/utils.py:78-80 | the sort is a permutation |
| Utils.InsertKeepsOrder | utils/utils.py:78-80 | inserting into a list ordered by works keeps it ordered |
| Utils.InsertIsStable | utils/utils.py:78-80 | inserting leaves the order of the items with any one works count alone, putting the new item first among its ties |
| Utils.SortByWorksMeaning | utils/utils.py:78-80 | the sort orders by works, largest first, and keeps tied items in their order |
| Utils.CombinedContents | utils/utils.py:70-76 | one item per counted collection, holding its distinct works and its links (`Combined`) |
| Utils.CountedOrder | utils/utils.py:54-76 | the counted collections are exactly those with a listed work, each once |
| Utils.SummaryContents | utils/utils.py:53-82 | the summary lists exactly the collections with a listed work, each with its number of distinct works and of links |
| Utils.SummaryKeysDistinct | utils/utils.py:70-80 | no collection appears twice in the summary |
| Utils.SummaryOrder | utils/utils.py:78-80 | the summary is ordered by works, largest first, and ties keep the order in which the collections were first counted |
| Utils.SummarizeEtextLinks | utils/utils.py:53-82 | the nested loops, the combination and the sort compute `Summarized` |
| GraphLabels.AfterLast | static/js/graph.js:325 | the longest tail without a separator; the character before it, if any, is a separator |
| GraphLabels.LastSegment | static/js/graph.js:325 | `split(/[/=]/).pop()` is the tail of the URL with no `/` or `=`, preceded by one of them unless it is the whole URL |
| GraphLabels.DropExtension | static/js/graph.js:325 | the replace keeps a prefix; it removes something exactly when the segment has a `.` and does not end in one, and then it removes the last `.` and the non-empty dot-free rest |
| GraphLabels.Basename | static/js/graph.js:323-326 | a non-string gives `''`; a string gives a result with no `/` or `=` |
| GraphLabels.BasenameOfFile | static/js/graph.js:325 | `…/name.ext` and `…=name.ext` give `name` |
| GraphLabels.BasenameWithoutExtension | static/js/graph.js:325 | `…/name` with no dot gives `name` |
| GraphLabels.BasenameOfBareFile | static/js/graph.js:325 | a link with no `/` or `=` loses only its last extension |
| GraphLabels.BasenameKeepsInnerDots | static/js/graph.js:325 | `a.b.c` gives `a.b` |
| GraphLabels.BasenameKeepsFinalDot | static/js/graph.js:325 | `a.` is unchanged |
| GraphLabels.BasenameOfDirectory | static/js/graph.js:325 | `texts/` gives `''` |
| GraphLabels.FirstMatch | static/js/graph.js:262 | the leftmost position where the pattern matches, none before it |
| GraphLabels.RunEnd | static/js/graph.js:262 | where the greedy run of the class stops |
| GraphLabels.Capture | static/js/graph.js:262 | no capture exactly when the pattern matches nowhere; a capture is non-empty and in its class (`\d`, `[^&]` or `[^?#]`) |
| GraphLabels.PrefixedCapture | static/js/graph.js:262 | after the leftmost match, the capture is the whole run of the class |
| GraphLabels.ResourcesCapture | static/js/graph.js:297 | after the leftmost `/resources/` with no `?` or `#` to the end, the capture is the rest without one trailing `/` |
| GraphLabels.ExtractorTable | static/js/graph.js:254-320 | the eight collections that have a rule, each with its own |
| GraphLabels.DisplayLabelByCollection | static/js/graph.js:254-338 | DCS, Vātāyana, Muktabodha, UTA and DiPAL links are labelled by their own rules (`ApplyRule` on the table entry); GRETIL, SARIT, the Sanskrit Library and every collection without a rule by `basename` (`DisplayLabel`) |
| GraphLabels.DcsLabelMeaning | static/js/graph.js:260-268 | a DCS link with no `IDTextDisplay=` followed by digits gets its basename; otherwise it gets the captured digits (`DcsLabel`) |
| GraphLabels.DcsLabelOf | static/js/graph.js:260-268 | `site + "IDTextDisplay=" + digits`, with no earlier `IDTextDisplay=`, is labelled `digits` |
| GraphLabels.LiteralThenRun | static/js/graph.js:262 | after the first occurrence of a literal, the pattern captures the run that ends the string |
| GraphLabels.MuktabodhaLabelMeaning | static/js/graph.js:283-286 | the raw `miri_catalog_number` value up to any `&`, else the basename (`MuktabodhaLabel`) |
| GraphLabels.VatayanaLabelMeaning | static/js/graph.js:277-280 | the decoded `text_abbrv` value, taken up to any `&`, else the basename (`VatayanaLabel`) |
| GraphLabels.DipalLabelMeaning | static/js/graph.js:308-319 | the `tra_id` digits, else the `wor_id` digits, else the basename (`DipalLabel`) |
| GraphLabels.UtaGoogleDoc | static/js/graph.js:292-294 | `Google Doc` when `total <= 1`, else `Google Doc k` with `k = idx + 1`, different for neighbouring indices (`UtaLabel`) |
| GraphLabels.SubmenuKeepsLinks | static/js/graph.js:345-370 | the submenu lists every link once, in order; a lone value becomes a list of one; an object gives one group per category, in order (`SafeLinks`, `EntrySubmenu`) |
| GraphLabels.SubmenuLabels | static/js/graph.js:345-370 | each link is labelled with its index in its own list, from 0, and that list's length (`Labelled`) |
| GraphLabels.BuildEtextMenu | static/js/graph.js:340-378 | the loops build one submenu per collection, in key order, as `EtextMenu` defines them |
| GraphLabels.NodeRadius | static/js/graph.js:159-163 | 17 exactly for a central node, 15 for a non-central excluded one, 10 otherwise |
| GraphLabels.Flip | static/js/graph.js:438-439 | a fitting menu stays put; an overflowing one moves to `max(scroll + 10, pos - size)` |
| GraphLabels.FlipPlacement | static/js/graph.js:434-445 | an unflipped menu fits or could not move; a flipped one ends at the pointer unless the near margin stops it |
| GraphLabels.PlaceMenu | static/js/graph.js:434-445 | `left` and `top` are each clamped on their own axis, as `Flip` says |

## Findings

| source | as written | input that shows it | evidently intended | confidence | as-written member | corrected member |
|---|---|---|---|---|---|---|
| flask_app.py:400-412 | the validator indexes `string_input[0]` before line 406 checks for an empty parameter | `/api/seti/by_work` with no `ids`, or `ids=`: `None[0]` or `""[0]` raises, a 500 | a missing or empty parameter answers 400 "No IDs provided", as lines 406-408 and the route's documented 400 say | medium, not executed | FlaskApp.NoIdsUnreachable | FlaskApp.ByWorkGuardedMeaning |

## Left out

**I/O and foreign code:**
- File and JSON I/O: the CSV reader, `json.dump`, the loaders, the `VERSION` file. The rows, the link table and the `VERSION` line are inputs. Which line of `VERSION` each `find_*_version` reads is not modelled.
- The graph engine `construct_subgraph` / `annotate_graph`: it is not part of this model.
- Flask plumbing: routing, argument parsing, `jsonify` and status codes. The route checks at flask_app.py:280-283, 312-315 and 351-358 are not modelled. Where a status matters, a 400 answer is an `Err` or a `BadRequest`.
- `create_etext_links`, `utils/extract.py`, `static/js/dropdown.js`, and the rest of `graph.js` (the D3 simulation, DOM, timers): not modelled.
- `decodeURIComponent` is the parameter `decode`; its `URIError` is not modelled.
- Logging and `print` (flask_app.py:147, utils/utils.py:67): not modelled. The logged relationship mismatch returns `None`.

**Entity records:**
- DataModels.FromDict: a dictionary holds only the known attribute keys with values of their declared shape. This is the precondition `WellTyped`. Unknown keys cannot be stated, and `setattr` of an ill-shaped value is not modelled.
- Entity types: `to_dict` writes `entity.type`, which `from_dict` may have set to any string. The round trip is proved for entities whose type names their class (`Tagged`).

**Row loading:**
- Transform.CreateEntities requires `Loadable`:
  - rows that do not raise at lines 59-65. Those lines raise on a short CSV row, whose missing cells `csv.DictReader` fills with `None` so that `.strip()` fails; on a missing column; and on an `int()` failure. `RowFold.Row`, a map from column to string, cannot represent a `None` cell;
  - no id used both as a work and as an author (`RolesDisjoint`).

  A clash raises `AttributeError` only when it reaches a list append at lines 98-120. Two clashes only `setattr` and merge silently:
  - a person row whose id is already a work: lines 126-136 rename it and give it a stray `social_identifiers`;
  - a work row whose id is already an author, when the row has no author or base-text pairs: lines 72-81 set its scalars.

  The model represents neither the silent merges nor the raises. Both kinds of failure are preconditions, not modelled error paths. The same precondition is stated per row on `RowFold.ApplyRow` and `Transform.EntityBuilder.AddRow`.
- Linkage.Valid relies on `Keyed`: the work row uses `W.id`, which equals the id it is filed under because the dictionary keeps every entity under its own id.
- Text.Lower handles ASCII letters only. Python's full Unicode case mapping is not modelled.
- Python's `int()` is modelled on ASCII digits with an optional sign. Underscores and non-ASCII digits are not modelled.

**Post-processing pass:**
- The pass visits the snapshot in an arbitrary order. The model proves the result is the same whatever the order, rather than fixing dictionary order.
- The `Counter` is modelled as a list of pairs in first-seen order, not as a mutated `defaultdict`.

**Requests and queries:**
- A JSON boolean `hops` passing `isinstance(hops, int)` is modelled as the accepted values `True`/`False`.
- The wrapped `AttributeError` of flask_app.py:421 is a `Result` error. It is modelled as a value, not a precondition.
- The link table is a value, so "the shared `ETEXT_LINKS` is not modified" holds by construction, not by proof.
- Python's `repr` of a string is modelled as quoting with `'`. Strings holding quotes or backslashes are not modelled.

**Menu placement and the graph view:**
- Floats are modelled as `real`. IEEE rounding is not modelled.
- JavaScript's string length counts UTF-16 code units; the model counts characters.
- Object keys that shadow `Object.prototype` are not modelled.
- Link values that are neither strings nor arrays are not modelled; `basename` of a non-string is `''`.
- The HTML of the menu is modelled as a structure of links and titles, not as markup text.
- The alpha decay of the force layout is not modelled.
