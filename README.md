# Category slugs, validation-error names and image extensions, verified in Dafny

This project models the small rule-bearing core of a pharmacy storefront's
Express back office:

- **Category slugs and the category collection** (`routes/admin_categories.js`).
  A category title becomes its slug by replacing every maximal run of
  whitespace with one `-` and lower-casing the result. The collection keeps
  slugs unique. Adding rejects a slug that is already taken. Editing rejects a
  slug held by a different category, and otherwise rewrites only that
  category's title and slug. Deleting removes the record with the given id. A
  blank title (empty or only whitespace) is rejected before anything is
  stored. The collection is the class `Categories.CategoryStore`, whose
  `categories` field is a sequence of `(id, title, slug)` records in insertion
  order.
- **The validation-error formatter** (`app.js`, `errorFormatter`). It turns a
  dotted parameter path `a.b.c` into the form-field name `a[b][c]`. The
  message and value pass through unchanged. It is modelled as a method with the
  source's `while` loop.
- **The image validator** (`app.js`, `customValidators.isImage`). It maps the
  lower-cased file extension `.jpg`, `.jpeg` or `.png` to itself, a missing
  extension to `.jpg`, and anything else to `false`.

Modules: `Wrappers` (an `Option` type), `Ascii` (character classes and
lower-casing), `Slug`, `Categories`, `ErrorFormatter`, `ImageValidator`.

Two reference definitions serve as partners for the proofs:

- `Slug.Run` reads a text as alternating non-empty words and whitespace gaps.
  `Slug.CollapseByRuns` shows that the slug rule writes each gap as one `-` and
  keeps each word in order.
- `ErrorFormatter.BracketForm` describes the output without splitting: the first
  dot becomes `[`, every later dot becomes `][`, and, when there is a dot, a
  closing `]` is appended.

## Model

| member | source | states |
|---|---|---|
| `Ascii.IsWhitespace` | routes/admin_categories.js:32 | the `\s` class, on ASCII: no whitespace character is an upper-case letter, lower-casing keeps it, and none is the `-` a run becomes |
| `Ascii.ToLower` | app.js:91 | `toLowerCase`, also applied to slugs at routes/admin_categories.js:32 and 90: same length, each character lower-cased in place, no upper-case letter left |
| `Slug.CollapseWhitespace` | routes/admin_categories.js:32 | replacing `\s+` runs leaves no whitespace, never lengthens the text, and gives an empty result only for an empty input |
| `Slug.Slugify` | routes/admin_categories.js:32 | a slug has no whitespace and no upper-case letter, is no longer than its title, and is empty exactly when the title is |
| `Slug.CollapseKeepsWhitespaceFree` | routes/admin_categories.js:32 | a text without whitespace is unchanged by the run replacement |
| `Slug.SlugifyIdempotent` | routes/admin_categories.js:32 | slugging a slug returns it unchanged |
| `Slug.CollapseByRuns` | routes/admin_categories.js:32 | for any split of a text into maximal alternating word and gap runs, each gap becomes exactly one `-` and the words are kept, in order |
| `Slug.RunsOfSpellsTitle` | routes/admin_categories.js:32 | every title has such a split into maximal runs, and the runs spell the title |
| `Slug.SlugifyByRuns` | routes/admin_categories.js:90 | the slug computed on edit is the title's runs, gaps as `-`, lower-cased |
| `Categories.Without` | routes/admin_categories.js:138 | removing by id keeps exactly the records with other ids and is the identity when no record has that id |
| `Categories.WithoutRemovesOne` | routes/admin_categories.js:138 | when ids are unique, removing an id drops exactly the one record at its index and keeps the others in order |
| `Categories.WithoutKeepsUnique` | routes/admin_categories.js:138 | removing records keeps the remaining slugs and ids unique |
| `Categories.CategoryStore.Valid` | routes/admin_categories.js:41-42 | the class invariant the slug queries of add and edit maintain: a slug names at most one stored category, ids are unique, and every id was already handed out |
| `Categories.CategoryStore.FindClash` | routes/admin_categories.js:41-42 | the slug query of add finds a record with that slug exactly when one exists; with an id to skip it is the edit query of routes/admin_categories.js:101, which finds a record with that slug and another id exactly when one exists |
| `Categories.CategoryStore.IndexOf` | routes/admin_categories.js:109 | the lookup by id finds the record's index exactly when a record has that id |
| `Categories.CategoryStore.Add` | routes/admin_categories.js:28-52 | a blank title or a taken slug is rejected with the collection unchanged; otherwise exactly one record (new id, title, slug of title) is appended, and slugs and ids stay unique |
| `Categories.CategoryStore.Edit` | routes/admin_categories.js:86-113 | a blank title, or a slug held by a different id, is rejected with the collection unchanged; otherwise only the record with this id gets the new title and slug, every other record is untouched, and slugs stay unique |
| `Categories.CategoryStore.Delete` | routes/admin_categories.js:137-138 | the collection becomes the old one without the record with this id, and uniqueness is preserved |
| `ErrorFormatter.Split` | app.js:75 | `split('.')` yields one piece more than there are dots, and no piece holds a dot |
| `ErrorFormatter.JoinSplit` | app.js:75 | joining the pieces with dots gives the parameter back |
| `ErrorFormatter.BracketedSplit` | app.js:79-81 | wrapping every piece of a text in brackets is the text with each dot written as `][`, between `[` and `]` |
| `ErrorFormatter.SegmentsMatchBracketForm` | app.js:75-81 | root segment plus the bracketed remaining segments equals the reference bracket form |
| `ErrorFormatter.FormatError` | app.js:74-87 | the formatted param is the first dot-separated segment followed by each remaining segment in brackets, in order (one pair per dot), equals the reference bracket form, is the param itself when it has no dot, and `msg` and `value` are returned unchanged |
| `ImageValidator.ExtName` | app.js:91 | the extension is empty or a suffix of the name that starts with its only `.` and holds no `/`; it is empty exactly when the basename has no `.` after its first character, so `dir/photo.png` has one and `.bashrc` has none |
| `ImageValidator.ExtNameAt` | app.js:91 | in a name without `/`, a `.` after the first character with no later `.` starts the extension, which runs to the end of the name |
| `ImageValidator.IsImage` | app.js:90-104 | the verdict is `.jpg`, `.jpeg`, `.png` or false; it accepts exactly the lower-cased extensions `.jpg`, `.jpeg`, `.png` and the empty one, returns the lower-cased extension when there is one, and `.jpg` when there is none |
| `ImageValidator.ExtNameIgnoresCase` | app.js:91 | taking the extension commutes with lower-casing the file name |
| `ImageValidator.IsImageIgnoresCase` | app.js:91-92 | a file name and its lower-cased form get the same verdict |
| `ImageValidator.UpperCaseExtension` | app.js:91-98 | `photo.PNG` is accepted as `.png` |
| `ImageValidator.MissingExtension` | app.js:99-100 | `README`, with no extension, is accepted as `.jpg` |
| `ImageValidator.OtherExtension` | app.js:101-102 | `anim.gif` is refused |

## Left out

- The shopping cart: `routes/cart.js` is not part of this model, so the cart's add, update, remove and total rules are not modelled.
- Express plumbing is not modelled: routing, `res.render`, `res.redirect`, `req.flash`, sessions, body parsing and file upload. The GET handlers for the category index and the add and edit forms only render, so they have no counterpart.
- The MongoDB connection and the asynchronous `find`, `findOne`, `findById`, `save` and `findByIdAndRemove` callbacks are not modelled. The store is a synchronous in-memory sequence, and each operation is one atomic step. Two concurrent adds with the same slug could both pass the slug query in the source; the model cannot show that race.
- The refresh of `app.locals.categories` and `app.locals.pages` after each change, and their loading at startup (app.js:33-55), are not modelled. Server startup (app.js:137-141) is not modelled either.
- The `console.log` error branches are not modelled. When an edit is rejected because the slug is taken, the source renders the page-edit template (routes/admin_categories.js:104) instead of the category-edit one; this is rendering only.
- Categories.CategoryStore.Edit: requires that the id exists. When `findById` finds nothing, the source dereferences null.
- Category ids: MongoDB generates `ObjectId`s. The model hands out ids from a counter (`nextId`) and proves that they stay unique.
- The title check `notEmpty` is modelled as in releases of express-validator's legacy `checkBody`/`customValidators` API, such as 2.x and 3.x: it fails on a title matching `/^[\s\t\r\n]*$/`, so an empty or whitespace-only title is rejected (`Slug.AllWhitespace`). The installed version is not pinned by the modelled files; a release whose `notEmpty` rejects only the empty string would save a whitespace-only title with slug `-`, which the model does not describe.
- Unicode: `\s` and `toLowerCase` are modelled on ASCII only. Whitespace is space, tab, line feed, vertical tab, form feed and carriage return, and lower-casing maps `A`-`Z` only.
- ImageValidator.ExtName: models `path.extname` by a simplified rule. The extension is the part of the basename (after the last `/`) from its last `.`, or empty when there is no `.` or the only `.` is the first character. Trailing separators, Windows paths and names such as `..` follow Node's own rules, which are not modelled.
- `isImage`'s first argument (`value`) is never used by the source and is dropped.
