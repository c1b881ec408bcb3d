# Newspack Sponsors: the shadow-term synchronizer

The Sponsors plugin adds a Sponsor post type (`newspack_spnsrs_cpt`) and a Sponsors taxonomy
(`newspack_spnsrs_tax`). Each Sponsor post has a "shadow" term in that taxonomy. The post and
the term are joined by one thing only: the term's name is exactly the post's title. Two hooks
keep them in step:

- `update_shadow_term` runs on every post save. It skips a missing post, a post that is not a
  Sponsor, and an auto-draft. Otherwise it looks up the term named after the title. It updates
  that term's name and slug, or inserts a new term when there is none.
- `delete_shadow_term` runs before a post is deleted. It deletes the term named after the
  Sponsor's current title.

This project models those hooks over in-memory stand-ins for the host platform's stores:

- `wrappers.dfy`: `Option`, which stands for PHP's "a value, or false".
- `wordpress.dfy`: the host's side.
  - A `Post` record holds the type, status, title and slug. `get_post` is a lookup in a
    `map<int, Post>` that the caller passes in.
  - `Table` is the term table of the Sponsors taxonomy: id -> (name, slug), plus the next free id.
  - `TermStore` is a class holding the `Table`. Its methods are `wp_insert_term`,
    `wp_update_term` and `wp_delete_term`, and they update the table in place.
- `sponsors.dfy`: the plugin's code.
  - `GetShadowTerm` is a function.
  - `CreateShadowTerm`, `UpdateShadowTerm` and `DeleteShadowTerm` are methods that modify the
    `TermStore`.
  - `Saved` and `Deleted` give the table that each hook leaves behind. Each hook method is proved
    to produce exactly that table.
- `sponsors_properties.dfy`: properties that span several hook runs.
  - A repeated save leaves the table as the first save did, when the guards skip the post, or
    when the title is one PHP's `empty()` does not treat as empty and the first save matched a term
    or had its insert accepted. After a rejected first insert, a later accepted save still adds the
    term.
  - A save that matched a term, or whose insert the host accepted, establishes the shadow term,
    for a title PHP's `empty()` does not treat as empty.
  - A save never duplicates a term named after a title PHP's `empty()` does not treat as empty.
  - A delete after a save leaves no shadow term. This needs a title that PHP's `empty()` does not
    treat as empty, and at most one term with that name beforehand: with two same-named terms,
    the delete removes only the one the lookup found.
  - A rename orphans the old term. The rename scenario is worked through on concrete values
    ("Acme Corp" renamed to "Acme Corporation").

`wp_insert_term` can report an error. Its causes belong to the host, so the model takes the
host's verdict as a boolean parameter, `insertAccepted`.

PHP's `empty()` calls both `""` and `"0"` empty, and the model follows the code here. A Sponsor
titled `"0"` never finds its shadow term, so every accepted save of it inserts one more term
(`ZeroTitleSaveInsertsAgain`). The no-duplication lemmas therefore require a title PHP does not
call empty.

## Model

| member | source | states |
|---|---|---|
| `WordPress.IsEmptyString` | includes/class-newspack-sponsors.php:229 | PHP's `empty()` on a title: only strings of at most one character are empty; "" is empty; of the one-character strings exactly "0" is |
| `WordPress.GetPost` | includes/class-newspack-sponsors.php:167 | `get_post`: a post exactly when one is stored under the id, and then that post |
| `WordPress.FirstNamed` | includes/class-newspack-sponsors.php:233 | the result is a term in the range whose name equals the given name exactly, and the least such id; None only when no term in the range has that name |
| `WordPress.Table.TermByName` | includes/class-newspack-sponsors.php:233 | `get_term_by('name', …)`: a term whose name is exactly the given one, the least id of them; none only when no term has that name |
| `WordPress.Table.Insert` | includes/class-newspack-sponsors.php:249-255 | a successful insert adds exactly one row under a fresh id with the given name and slug and keeps every other row |
| `WordPress.Table.Update` | includes/class-newspack-sponsors.php:187-194 | the row with the id gets the new name and slug; ids and every other row are unchanged; an unknown id changes nothing |
| `WordPress.Table.Delete` | includes/class-newspack-sponsors.php:219 | the row with the id is removed and every other row is kept unchanged |
| `WordPress.TermStore.InsertTerm` | includes/class-newspack-sponsors.php:249-255 | on an error the table is unchanged and None is returned; otherwise the row is inserted and its id returned |
| `WordPress.TermStore.UpdateTerm` | includes/class-newspack-sponsors.php:187-194 | the store's table becomes the updated table |
| `WordPress.TermStore.DeleteTerm` | includes/class-newspack-sponsors.php:219 | the store's table becomes the table without that row |
| `NewspackSponsors.GetShadowTerm` | includes/class-newspack-sponsors.php:228-240 | none for a missing post or a title PHP calls empty; otherwise a term named exactly as the title, and none only when no such term exists |
| `NewspackSponsors.Saved` | includes/class-newspack-sponsors.php:166-196 | the guards leave the table unchanged; no term is removed; every term except the one the lookup matched is untouched; a matching term gets the post's title and slug and nothing is added; without a match exactly one term (title, slug) is added if the host accepts, none otherwise |
| `NewspackSponsors.Deleted` | includes/class-newspack-sponsors.php:204-220 | nothing is added or modified; a missing or non-Sponsor post, or no matching term, changes nothing; otherwise exactly the term named after the current title is removed |
| `NewspackSponsors.CreateShadowTerm` | includes/class-newspack-sponsors.php:248-262 | on an insert error it returns None and leaves the table unchanged; otherwise it returns the new term's id and the table gains the term (title, slug) |
| `NewspackSponsors.UpdateShadowTerm` | includes/class-newspack-sponsors.php:166-196 | the store ends as `Saved` of the post; the hook returns false exactly when a guard bails |
| `NewspackSponsors.DeleteShadowTerm` | includes/class-newspack-sponsors.php:204-220 | the store ends as `Deleted` of the post; the hook returns false exactly when the table is unchanged, that is, for a missing or non-Sponsor post, or when there is no matching term |
| `SponsorsProperties.SaveNeverDuplicates` | includes/class-newspack-sponsors.php:180-195 | for a Sponsor save past the guards whose title PHP's `empty()` does not treat as empty: a term named after the title is added only when none existed and the host accepts; otherwise the set of terms with that name is unchanged |
| `SponsorsProperties.SaveEstablishesShadowTerm` | includes/class-newspack-sponsors.php:180-195 | for a Sponsor save past the guards whose title PHP's `empty()` does not treat as empty, and that matched a term or had its insert accepted: afterwards the shadow term exists with the post's title and slug |
| `SponsorsProperties.SaveIsIdempotent` | includes/class-newspack-sponsors.php:166-196 | saving the same post a second time leaves the table exactly as the first save did, when the guards skip the post, or when its title is one PHP's `empty()` does not treat as empty and the first save matched a term or had its insert accepted |
| `SponsorsProperties.DeleteAfterSaveLeavesNoShadowTerm` | includes/class-newspack-sponsors.php:204-220 | with at most one term named after the title, save followed by delete leaves no term with that name |
| `SponsorsProperties.ZeroTitleSaveInsertsAgain` | includes/class-newspack-sponsors.php:229-231 | a Sponsor titled "0" never finds its term, so two accepted saves add two terms named "0" |
| `SponsorsProperties.RenameOrphansOldTerm` | includes/class-newspack-sponsors.php:213-219 | for any post and any new title different from the old one: after a save, a rename, a re-save and a delete, every term named after the old title survives unchanged |
| `SponsorsProperties.AcmeRenameScenario` | includes/class-newspack-sponsors.php:166-220 | on an empty taxonomy: create "Acme Corp", rename and save, delete; only the "Acme Corp" term remains |

## Left out

- `register_cpt`, `register_tax` (lines 80-150): they only pass label and argument arrays to the host's registration calls. There is no behaviour to model.
- `instance`, the constructor, `init` and `create_shadow_relationship` (lines 50-75, 155-158): the singleton, the `current_user_can` check and the hook wiring. These are host plumbing. The hooks are modelled as methods that a caller invokes directly.
- Translation helpers `__` and `_x`.
- Host internals: slug sanitisation and uniqueness, collation and case folding in `get_term_by`, parent rules for hierarchical terms, and the errors of `wp_update_term` and `wp_delete_term`. Update and delete are plain table operations. Why `wp_insert_term` fails is not modelled; the host's verdict is a parameter.
- `WordPress.Table.TermByName`: when several terms share a name, the model returns the one with the least id. The host queries without an order, so which term it picks is unspecified.
- `WordPress.GetPost`: `get_post` resolves more than an id in a map (the current global post for id 0, caching, filters). Only the lookup is modelled.
- Concurrency between requests is not modelled.
- `CreateShadowTerm`: on success `wp_insert_term` returns an array holding `term_id` and `term_taxonomy_id`. The model returns only the term id. `update_shadow_term` discards this result, as in the code.
