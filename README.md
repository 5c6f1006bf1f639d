# SwapLearn skill matching, in Dafny

SwapLearn lets people trade skills. A user lists the skills they need and the skills
they teach. The backend (`server.js`) keeps four MySQL tables:

- `users(user_id, username)`;
- `skills(skill_id, skill_name)`;
- the link tables `user_skills_need(user_id, skill_id)` and `user_skills_teach(user_id, skill_id)`.

The backend answers four read queries:

- who needs what;
- who teaches what;
- who can teach a given user;
- which pairs of users can exchange skills.

It also has two write routes, each of which appends one link row.

The front end (`Public/script.js`) keeps the signed-in user in browser storage. It
derives avatar initials from the user's name and parses the comma-separated skill lists
of the profile form. It refuses an incomplete registration.

The project has six modules:

- `Relational` (relational.dfy): the combinators an inner join is built from, read as a nested loop (`FlatMap`, `Cross`). It also holds the counting lemmas that relate how often a row appears in a join's output to the row combinations that produce it.
- `SkillMatching` (matching.dfy): the tables as values and the four queries as functions over them. Each query lists one row per combination of joined rows that meets the join conditions. Because SQL promises no order, results are compared as multisets.
  - Membership lemmas hold for any tables.
  - Multiplicity lemmas assume `user_id` and `skill_id` are keys of their tables (`KeysUnique`). The model puts no key on the link tables, and the source never checks for duplicates.
- `MutualScenario` (scenario.dfy): the mutual query evaluated on a two-user exchange.
- `SkillStore` (store.dfy): the database as a `Store` class whose four table fields the write routes update in place. `AddNeed` and `AddTeach` are proved against the discover queries.
- `Text` (text.dfy): the JavaScript string operations the front end uses: `trim`, `split(/\s+/)`, `split(",")`, `join` and one-character `toUpperCase`.
- `Profile` (profile.dfy): the front-end helpers. Stored user records are `Option` values, and `getInitials`' possible TypeError is an `Evaluation` result.

### Each mutual match is listed from both sides

The SQL lists a match between two different users A and B once as (A, B, x, y) and
once from B's side as (B, A, y, x).

- `MutualSwapMember` proves that a row is listed exactly when its mirror image is.
- `MutualSwapCount` proves that, with keys unique, a match and its mirror image are listed equally often.
- `MutualExample` shows the two rows of a single exchange.

A self-match (A, A, x, x), which `MutualSelfPair` shows is listed, is its own mirror
image. It is listed once for each combination of rows that produces it.

## Model

| member | source | states |
|---|---|---|
| SkillMatching.UserNames | server.js:93 | the names a join on `users` pairs with a user_id are exactly the usernames of rows carrying that id |
| SkillMatching.SkillNames | server.js:94 | the names a join on `skills` pairs with a skill_id are exactly the skill names of rows carrying that id |
| SkillMatching.UserNamesKeyed | server.js:93 | with user_id a key, a link row joins with at most one user, and with one exactly when that user exists |
| SkillMatching.SkillNamesKeyed | server.js:94 | with skill_id a key, a link row joins with at most one skill, and with one exactly when that skill exists |
| SkillMatching.ListingsForKeyed | server.js:90-95 | with keys unique, one link row gives exactly one listing when its user and skill exist, and none for an orphan row |
| SkillMatching.DiscoverNeed | server.js:90-95 | GET /api/discover/need; no contract of its own: DiscoverNeedExact states its membership, multiplicity and length |
| SkillMatching.DiscoverTeach | server.js:104-109 | GET /api/discover/teach; no contract of its own: DiscoverTeachExact states its membership, multiplicity and length |
| SkillMatching.DiscoverMember | server.js:90-95 | a row is listed exactly when some link row's user and skill carry its two names (sound and complete, any tables) |
| SkillMatching.DiscoverCount | server.js:90-95 | with keys unique, a row is listed once per link row displayed as it (no deduplication) |
| SkillMatching.DiscoverLength | server.js:90-95 | with keys unique, the listing has one row per non-orphan link row |
| SkillMatching.DiscoverAppend | server.js:90-95 | appending a link row appends its one listing (keys unique), or nothing for an orphan row |
| SkillMatching.DiscoverNeedExact | server.js:90-95 | GET /api/discover/need: membership, multiplicity and length, in terms of the need rows |
| SkillMatching.DiscoverTeachExact | server.js:104-109 | GET /api/discover/teach: membership, multiplicity and length, in terms of the teach rows |
| SkillMatching.CanTeach | server.js:120-127 | GET /api/match/can-teach/:userId; no contract of its own: CanTeachMember, CanTeachCount and CanTeachEmpty specify it |
| SkillMatching.CanTeachPairMember | server.js:120-127 | one (need row, teach row) combination yields exactly the rows naming a teacher of the needed skill for that learner |
| SkillMatching.CanTeachMember | server.js:120-127 | a (teacher, skill) row is listed for a learner exactly when the learner exists, needs the skill, and that teacher teaches it |
| SkillMatching.CanTeachCount | server.js:120-127 | with keys unique, the multiplicity of a row is the number of (need row, teach row) position pairs that produce it |
| SkillMatching.CanTeachEmpty | server.js:120-127 | a nonexistent learner, or one with no need rows, gets an empty list |
| SkillMatching.CanTeachIncludesSelf | server.js:120-127 | the learner is not excluded: someone who needs and teaches a skill is listed as their own teacher |
| SkillMatching.Mutual | server.js:138-152 | GET /api/match/mutual; no contract of its own: MutualMember, MutualSwapMember and MutualSwapCount specify it |
| SkillMatching.NeedTeachPairsMember | server.js:144-145 | the combinations the query ranges over are exactly the (need row, teach row) pairs |
| SkillMatching.MutualPairCount | server.js:138-152 | with keys unique, one combination of four link rows yields a row at most once, and exactly when the rows witness it |
| SkillMatching.MutualMember | server.js:138-152 | a row (A, B, x, y) is listed exactly when A needs x and B teaches it, B needs y and A teaches it, and all four names exist |
| SkillMatching.MutualSwapMember | server.js:138-152 | (A, B, x, y) is listed exactly when its mirror image (B, A, y, x) is |
| SkillMatching.MutualSwapCount | server.js:138-152 | with keys unique, a match and its mirror image are listed equally often |
| SkillMatching.MutualSelfPair | server.js:138-152 | a user who needs and teaches the same skill is matched with themself |
| MutualScenario.MutualExample | server.js:138-152 | for two users who teach each other's need, the listing is exactly the two mirrored rows (shown in the model's nested-loop order; SQL fixes only the bag) |
| SkillStore.Store.AddNeed | server.js:51-59 | a database error stores nothing; otherwise the need row is appended, the success message is returned, the other tables are unchanged, and the need listing grows by that row's one listing (or none for an orphan row) |
| SkillStore.Store.AddTeach | server.js:62-70 | the same for the teach table and the teach listing; the need listing is unchanged |
| Text.ToUpper | Public/script.js:189 | a lower-case letter becomes its upper-case letter; every other character is kept |
| Text.Trim | Public/script.js:188 | the result has no whitespace at either end |
| Text.TrimSlice | Public/script.js:188 | the trimmed string is a slice of the input with only whitespace before it and after it |
| Text.TrimSpec | Public/script.js:188 | trimming gives "" exactly for whitespace-only strings and leaves a trimmed string unchanged |
| Text.SplitOnSpaces | Public/script.js:188 | the split has at least one piece, and no piece contains whitespace |
| Text.WordsShape | Public/script.js:188 | every word is non-empty and free of whitespace; there are no words exactly when the string is whitespace only |
| Text.SplitTrimmedIsWords | Public/script.js:188 | splitting the trimmed string at whitespace runs yields exactly its words, when it has a non-whitespace character |
| Text.WordsTrim | Public/script.js:188 | trimming does not change the words of a string |
| Text.SplitOn | Public/script.js:230 | the split has at least one piece, and no piece contains the separator |
| Text.SplitOnAround | Public/script.js:230 | splitting around a separator splits each side |
| Text.JoinWith | Public/script.js:201-202 | `join`; no contract of its own: JoinSplitOn and ParseFormat specify it |
| Text.JoinSplitOn | Public/script.js:230 | joining the pieces with the separator gives back the string |
| Profile.GetInitials | Public/script.js:186-190 | a missing or empty name gives "U"; any result has at most two characters |
| Profile.CapitalsAreInitials | Public/script.js:189 | on non-empty words, the capitals taken by `p[0]` and by `p[0]?.` agree with the first two words' capitals |
| Profile.GetInitialsWords | Public/script.js:186-190 | a name with a non-whitespace character gives the capitals of its first two words: one or two characters |
| Profile.GetInitialsBlank | Public/script.js:188-189 | a whitespace-only name makes getInitials throw |
| Profile.GetInitialsTwoWords | Public/script.js:188-189 | only the first two words count |
| Profile.NavInitials | Public/script.js:29-45 | no stored user gives "U" |
| Profile.NavInitialsName | Public/script.js:36-38 | a stored name with a non-whitespace character takes precedence, and the navigation shows the same initials as getInitials |
| Profile.NavInitialsBlankName | Public/script.js:37-38 | a whitespace-only stored name gives empty initials in the navigation |
| Profile.NavInitialsFallback | Public/script.js:39-41 | without a name, the email's capitalised first character, else "U" |
| Profile.TrimEach | Public/script.js:230 | each entry is the trimmed entry at the same position, and the length is kept |
| Profile.NonEmptyOnly | Public/script.js:230 | a string is kept exactly when it is in the input and not empty |
| Profile.ParseList | Public/script.js:230-231 | every parsed entry is non-empty, trimmed and free of commas |
| Profile.ParseListAround | Public/script.js:230 | parsing around a comma parses both sides, keeping the order |
| Profile.ParseListPiece | Public/script.js:230 | a comma-free piece gives its trimmed self, or nothing when it is blank |
| Profile.ParseListLeadingSpace | Public/script.js:230 | whitespace after a comma does not reach the next entry |
| Profile.FormatList | Public/script.js:201-202 | a saved list joined with ", " for the edit form; no contract of its own: ParseFormat and ParseListIdempotent specify it |
| Profile.ParseFormat | Public/script.js:201-202 | parsing a list joined with ", " gives the list back, for entries a parse can produce |
| Profile.ParseListIdempotent | Public/script.js:201-202 | saving a parsed list and parsing it again changes nothing |
| Profile.ProfileName | Public/script.js:235 | the trimmed form name when it has a non-whitespace character, else the account's name |
| Profile.SubmitProfile | Public/script.js:226-240 | the stored record (or an empty one) keeps its name, email and password and gets the parsed profile |
| Profile.EditForm | Public/script.js:192-205 | the edit form prefilled from a saved profile (blank without one); no contract of its own: ResubmitUnchanged specifies it |
| Profile.ResubmitUnchanged | Public/script.js:192-205 | opening the edit form on a saved profile and submitting it unchanged saves the same record |
| Profile.Register | Public/script.js:76-96 | alerts exactly when the trimmed name or email, or the password, is empty, storing nothing; otherwise stores the trimmed name and email with the password and no profile |
| Profile.RegisterThenInitials | Public/script.js:78-99 | after a successful registration, the navigation and getInitials both show the registered name's initials |

## Left out

- HTTP, Express routing, CORS, dotenv and the MySQL connection pool are left out. The routes are functions and methods over the tables.
- Read routes answer 500 when the query fails. Query failure is not modelled for them; only the write routes have an error path.
- The routes `/`, `/api/users` and `/api/skills` are left out. Each one sends a constant or a whole table back.
- Row order: SQL promises none, so query results are only compared as multisets.
- The multiplicity lemmas assume `user_id` and `skill_id` are primary keys. With duplicate keys every join result is multiplied, and only the membership lemmas apply.
- SkillStore.Store.AddNeed: foreign-key and type errors are not modelled; any rejection by the database is the `storageFailure` parameter. A request body missing `user_id` or `skill_id` is not modelled.
- SkillStore.Store.AddTeach: same as AddNeed.
- The can-teach route passes its `:userId` path parameter as a string, and MySQL converts it to a number for the comparison. The model takes an integer.
- The DOM, `fetch`, HTML rendering, modals and page navigation are left out. So are the lists built from the discover routes (script.js:252-280).
- Browser storage and `JSON.parse` are an `Option<Account>`. A missing entry, an empty one and one that does not parse are all `None`. Stored fields of other JSON types (numbers, arrays) are not modelled.
- Profile.ResubmitUnchanged: assumes the account's name is trimmed, as registration stores it. An untrimmed name reaches the edit form through the name fallback and is trimmed when the form is submitted again.
- Text.IsSpace: `\s` and `trim` are modelled for ASCII whitespace only. The Unicode space characters are not modelled.
- Profile.GetInitials: JavaScript strings are sequences of UTF-16 code units, and `p[0]` takes the first code unit. For a word starting with a character outside the Basic Multilingual Plane the source takes half a surrogate pair, and the model takes the whole character. The model's initials therefore agree with the source only for names whose words start with a BMP character.
- Profile.NavInitials: the same holds for `p[0]?.` on the name and for `charAt(0)` on the email.
- Text.ToUpper: ASCII only. Unicode case mapping is not modelled, including mappings that change the length of a string.

