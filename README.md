# Credentials, remember-me tokens and items of a PHP marketplace

This project models the core of a small PHP marketplace site (sign-up,
login, profile editing, and listing items for sale) and proves properties of
the model in Dafny. It covers four source files:

- `App/Models/User.php`: validating a user's fields, the unique email,
  saving a user with a hashed password, authenticating by email and
  password, editing a profile, and remembering a login.
- `App/Token.php`: minting a random token (16 random bytes in lowercase
  hexadecimal) or wrapping a supplied one, and hashing it with HMAC-SHA256
  under the site's secret key.
- `App/Models/RememberedLogin.php`: finding a remembered login by the raw
  token a browser presents, checking whether it has expired, finding the user
  it belongs to, and deleting it.
- `App/Models/Item.php`: validating an item and the insert, update, delete
  and read statements on the items table.

The database is a `Storage.Database` object holding three tables in memory:

- `users` and `items` are sequences of rows in primary-key order. A lookup
  returns the first matching row in that order. The SELECTs have no
  ORDER BY, so this order is the model's choice, not a promise of the
  source (see "## Left out").
- `remembered_logins` is a map keyed by `token_hash`.
- `Database.Valid()` states the keys: ids are unique and positive and below
  the auto-increment counter, `users.email` is unique, and every login
  record is stored under its own hash.
- A statement that would break a key returns false and changes nothing.
  Every other statement succeeds.

The PHP objects `User` and `Item` become Dafny classes, because their
methods update fields in place (`errors`, the form values, the remembered
token). Tokens and remembered-login records are values.

Some primitives are parameters rather than models. Their outputs are
otherwise arbitrary:

- `filter_var(..., FILTER_VALIDATE_EMAIL)` is a predicate `isEmail`.
- `password_hash` is a function of the password and a salt.
- `password_verify` is a predicate `verify`.
- `hash_hmac('sha256', ...)` is a function `hmac` whose output is always 64
  lowercase hexadecimal characters.
- `random_bytes(16)` is a 16-byte sequence.
- `time()` is an integer `now`.
- The secret key is a string `key`.

Several pieces of PHP behaviour are written out in the model:

- The truthiness of a string ("" and "0" are false) decides whether `new
  Token($v)` keeps `$v` or mints a new token.
- The `(int)` cast of a string is `Php.IntCast`.
- The loose comparison `$user->id != $ignore_id` is `Users.IdDiffers`. With
  no id to ignore, a row with id 0 counts as the caller's own.

The three password checks at `App/Models/User.php:103-113` are separate
`if`s. So "abc", which is short and has no digit, gets the length message
and "Password needs at least one number"; "abc1" gets only the length
message (`Users.ShortPasswordExamples`).

## Model

| member | source | states |
|---|---|---|
| Php.IntCastOfDecimal | App/Models/Item.php:53 | The `(int)` cast reads back any integer written in decimal, with or without a leading minus sign. |
| Php.Truthy | App/Token.php:29 | `if ($token_value)` on a nullable string: null, "" and "0" are false, every other string is true; a true value is a non-empty string. |
| Php.IntCast | App/Models/Item.php:53 | `(int)` of a string: an optional sign, then the leading decimal digits, and 0 when there are none. A negative result needs a leading minus sign, and a non-zero result needs a digit in the string. |
| Php.LeadingDigits | App/Models/Item.php:53 | The digits the cast reads are the longest all-digit prefix of the string. |
| Tokens.BinToHex | App/Token.php:35 | `bin2hex` gives two lowercase hexadecimal characters per byte. |
| Tokens.HexToBin | App/Token.php:35 | The reference decoder only accepts strings of even length, two characters per byte. |
| Tokens.HexRoundTrip | App/Token.php:35 | Decoding the hexadecimal text of any bytes gives back those bytes. |
| Tokens.HexToBinRoundTrip | App/Token.php:35 | Any text the decoder accepts is exactly `bin2hex` of the bytes it decodes to. |
| Tokens.BinToHexInjective | App/Token.php:35 | Different byte strings give different hexadecimal texts. |
| Tokens.Token.GetValue | App/Token.php:44-47 | `getValue` is defined as the stored value; `Tokens.NewToken` states what that value is. |
| Tokens.Token.GetHash | App/Token.php:54-57 | The hash of a token is 64 lowercase hexadecimal characters. |
| Tokens.NewToken | App/Token.php:27-37 | A truthy supplied value is kept as the token. Otherwise the token is 32 lowercase hexadecimal characters that decode to the 16 random bytes. |
| Tokens.RewrapGenerated | App/Token.php:27-37 | A generated token is truthy, so wrapping its value again gives the same token, whatever new bytes are drawn. |
| Tokens.GeneratedTokensDistinct | App/Token.php:35 | Different random draws give different token values. |
| Users.TextInjective | App/Models/User.php:76-113 | No two validation messages share a text. |
| Users.FindByEmail | App/Models/User.php:146-160 | `findByEmail` returns a stored row with that email, and returns nothing exactly when no row has it. |
| Users.FindByEmailUnique | App/Models/User.php:146-160 | With unique emails, `findByEmail` returns the one row that holds the email. |
| Users.FindById | App/Models/User.php:190-204 | `findByID` returns a stored row with that id, and returns nothing exactly when no row has it. |
| Users.FindByIdUnique | App/Models/User.php:190-204 | With unique ids, `findByID` returns the one row that carries the id. |
| Users.IdDiffers | App/Models/User.php:131 | `$user->id != $ignore_id`: with an id to ignore, the ids differ; with none (null), the id is not 0. |
| Users.EmailExists | App/Models/User.php:126-137 | `emailExists` is defined from the `findByEmail` row and the loose id comparison. A true result means some row holds the email; with no id to ignore, a stored email whose row has a non-zero id is always reported. |
| Users.EmailExistsIff | App/Models/User.php:126-137 | `emailExists` is true exactly when some row holds the email and its id differs from the one to ignore. |
| Users.OwnEmailNotTaken | App/Models/User.php:96-98 | A stored user's own email is never reported as taken when their id is ignored. |
| Users.RequiredFieldRules | App/Models/User.php:75-90 | Each "X is required" message is present exactly when field X is empty, and the section adds nothing else. |
| Users.RequiredFieldOrder | App/Models/User.php:75-90 | The required-field messages come in field order (name, surname, phone, city), with no repeats. |
| Users.EmailRules | App/Models/User.php:92-98 | "Invalid email" is present exactly when the filter rejects the email. "email already taken" is present exactly when `emailExists` holds. |
| Users.PasswordRules | App/Models/User.php:100-115 | With no password there are no password messages. With a password, each message is present exactly when its rule fails: under 6 bytes, no ASCII letter, no digit. |
| Users.ValidationErrors | App/Models/User.php:73-116 | `validate`'s messages are defined as the required-field section, then the email section, then the password section; the rows around it state what each contains. |
| Users.RequiredMessagesFirst | App/Models/User.php:73-116 | Validation lists the required-field messages first, and nothing after them is a required-field message. |
| Users.RequiredMessagesExact | App/Models/User.php:75-90 | In the full validation result, each "X is required" message appears exactly when field X is empty. |
| Users.ValidationPassesIff | App/Models/User.php:73-116 | Validation adds no message exactly when all four fields are non-empty, the email is valid and not taken, and any password set is long enough and has a letter and a digit. |
| Users.PassedValidationFreesEmail | App/Models/User.php:255-257 | Once validation for a user with an id passes, no other row holds the submitted email. |
| Users.PasswordAcceptedExample | App/Models/User.php:101-115 | "abc123" passes every password rule. |
| Users.ShortPasswordExamples | App/Models/User.php:101-115 | "abc" gets the length and number messages. "abc1" gets only the length message. |
| Users.SingleClassPasswordExamples | App/Models/User.php:101-115 | "abcdef" gets only the number message. "123456" gets only the letter message. |
| Users.Authenticate | App/Models/User.php:170-181 | A user is returned only if they are stored, their email matches, and the password verifies against their stored hash. |
| Users.AuthenticateIff | App/Models/User.php:170-181 | With unique emails, authentication succeeds exactly when some stored row holds the email and the password verifies against that row's hash. |
| Users.AuthenticateNewUser | App/Models/User.php:170-181 | A user just inserted with a fresh email authenticates with the password whose hash was stored. |
| Users.SetProfile | App/Models/User.php:259-273 | The UPDATE rewrites the columns of every row with the given id, and the hash only when a password is set. Every other row is unchanged. |
| Users.SetProfileKeepsKeys | App/Models/User.php:257-294 | When no other row holds the new email, the update keeps ids and emails unique and keeps every id. |
| Users.SetProfileFound | App/Models/User.php:259-273 | After the update, `findByID` returns the updated row for the edited id and the same row as before for every other id. |
| Users.User.constructor | App/Models/User.php:28-33 | A new user object holds the given values, with no messages and no remembered token. |
| Users.User.Validate | App/Models/User.php:73-116 | `validate` appends the full validation result to the earlier messages and removes none. |
| Users.User.ValidateRequiredFields | App/Models/User.php:75-90 | The required-field section appends its messages. |
| Users.User.ValidateEmail | App/Models/User.php:92-98 | The email section appends its messages. |
| Users.User.ValidatePassword | App/Models/User.php:100-115 | The password section appends its messages. |
| Users.User.Save | App/Models/User.php:40-66 | `save` succeeds exactly when validation leaves no message and the email is not stored. Earlier messages make it fail. On success it appends one row with the next id and the hash of the password. On failure nothing is written. The keys hold afterwards. |
| Users.User.LoadForm | App/Models/User.php:243-253 | The form values are copied onto the object, the id through `(int)`. An empty form password keeps the old one. |
| Users.User.StoreIfValid | App/Models/User.php:257-297 | The UPDATE runs exactly when there are no messages and keeps the keys. Otherwise the table is unchanged. |
| Users.User.UpdateProfile | App/Models/User.php:241-298 | `updateProfile` copies the form, validates, and succeeds exactly when no message was added or already present. On success it rewrites the row with the form's id. On failure the users table is unchanged. The other tables never change. |
| Users.User.RememberLogin | App/Models/User.php:212-232 | The object keeps the new raw token and an expiry 30 days from now. A record holding only the token's hash, the user id and that expiry is inserted, which fails exactly when the hash is already a key. |
| RememberedLogins.FindByToken | App/Models/RememberedLogin.php:21-39 | The record found is stored under the hash of the presented token, and nothing is found exactly when no record has that hash. |
| RememberedLogins.HasExpired | App/Models/RememberedLogin.php:56-59 | `hasExpired` is defined as the expiry time lying strictly before the current time. |
| RememberedLogins.ExpiredStaysExpired | App/Models/RememberedLogin.php:56-59 | A record expired at one time is expired at every later time. |
| RememberedLogins.GetUser | App/Models/RememberedLogin.php:46-49 | The user found has the record's user id, and no user is found exactly when no row has that id. |
| RememberedLogins.Delete | App/Models/RememberedLogin.php:66-77 | Only the record under this record's hash is removed, and the keys hold afterwards. |
| RememberedLogins.RememberThenFind | App/Models/RememberedLogin.php:21-39 | The raw token handed out by `rememberLogin` finds exactly the record it inserted. |
| RememberedLogins.RememberedExpiry | App/Models/RememberedLogin.php:56-59 | A record written at `now` has expired at time t exactly when t is later than `now` plus 2592000 seconds. |
| RememberedLogins.TokenLookupIgnoresFreshBytes | App/Models/RememberedLogin.php:21-24 | For a truthy token, the lookup does not depend on the random bytes the Token constructor could draw. |
| RememberedLogins.DeleteThenFind | App/Models/RememberedLogin.php:66-77 | After a delete, the deleted record's token finds nothing, and every other token finds what it found before. |
| RememberedLogins.RememberedUserFound | App/Models/RememberedLogin.php:46-49 | With unique user ids, a record holding a stored user's id leads `getUser` back to that user. |
| Items.ItemValidationErrors | App/Models/Item.php:69-81 | `validate`'s messages are defined as the title, description and category rules in that order, the category rule firing only for an unset category. |
| Items.ItemValidationRules | App/Models/Item.php:69-81 | Each item message is present exactly when its rule fails: empty title, empty description, unset category. Validation passes exactly when none fails. |
| Items.SetCategoryNeverChecked | App/Models/Item.php:78-80 | A category that is set, whatever its value, never adds "Category is required" and does not affect the result. |
| Items.ItemValidationOrder | App/Models/Item.php:69-81 | The messages come in rule order: title, description, category. |
| Items.GetById | App/Models/Item.php:112-125 | `getById` returns a stored row with that id, and returns nothing exactly when no row has it. |
| Items.GetByIdUnique | App/Models/Item.php:112-125 | With unique ids, `getById` returns the one row carrying the id. |
| Items.GetAllByUserId | App/Models/Item.php:89-104 | A row is listed exactly when it is stored and owned by the user. |
| Items.GetAllByUserIdAppend | App/Models/Item.php:89-104 | In the model's id-ordered table, listing a table split in two lists each part in turn, so the model's order is kept. |
| Items.UpdateItemRows | App/Models/Item.php:142-145 | Every row with the id gets the new title, description and category and keeps its owner. Every other row is unchanged. |
| Items.UpdateKeepsKeys | App/Models/Item.php:142-154 | The update keeps every id, so ids stay unique. |
| Items.UpdateThenGetById | App/Models/Item.php:142-154 | After the update, `getById` returns the rewritten row for that id, and a missing id stays missing. |
| Items.UpdateLeavesOthers | App/Models/Item.php:142-154 | After the update, `getById` returns what it returned before for every other id. |
| Items.RemoveItem | App/Models/Item.php:169-170 | A row survives the DELETE exactly when it was stored and its id differs from the deleted one. |
| Items.RemoveItemKeepsKeys | App/Models/Item.php:167-178 | Deleting keeps ids unique. |
| Items.DeleteThenGetById | App/Models/Item.php:167-178 | After a delete, `getById` finds nothing for the deleted id and what it found before for every other id. |
| Items.SaveThenGetAll | App/Models/Item.php:39-62 | In the model's id-ordered table, a saved item appears last in its owner's list, after everything listed before. |
| Items.Item.constructor | App/Models/Item.php:27-32 | A new item object holds the given values and no messages. |
| Items.Item.Validate | App/Models/Item.php:69-81 | `validate` appends the item validation result to the earlier messages. |
| Items.Item.Save | App/Models/Item.php:39-62 | `save` succeeds exactly when there are no messages, earlier ones included. On success it appends one row with the next id, the current user as owner and the category's `(int)` value. On failure nothing is written. |
| Items.Item.StoreIfValid | App/Models/Item.php:141-157 | The UPDATE runs exactly when there are no messages and keeps the keys. Otherwise the table is unchanged. |
| Items.Item.Update | App/Models/Item.php:133-159 | `update` copies the form onto the object, validates, and succeeds exactly when there are no messages. On success it rewrites the row with the form's id. On failure the table is unchanged. |
| Items.Item.Delete | App/Models/Item.php:167-178 | `delete` always succeeds and removes exactly the rows with that id. |

## Left out

- Email comparison uses exact string equality. The database collation may compare emails case-insensitively, and that is not modelled.
- Dates: `expires_at` is an integer timestamp. The `date('Y-m-d H:i:s', ...)` and `strtotime` round trip, and time zones, are not modelled.
- Php.IntCast: only an optional sign followed by leading digits is modelled. Leading whitespace, exponent forms and overflow of the platform integer are not.
- `password_hash` and `password_verify` are opaque parameters. bcrypt's 72-byte limit and salt generation are not modelled.
- `filter_var`'s email grammar is not modelled; it is the parameter `isEmail`.
- A statement that would break a key is modelled as `execute()` returning false with nothing written. The source uses PHP 8 syntax, and since PHP 8.0 PDO's default error mode is `ERRMODE_EXCEPTION`. So unless Core/Model.php (not part of this model) sets another mode, such a statement in `save` or `rememberLogin` throws a PDOException instead of returning false.
- Row order: the SELECTs at App/Models/Item.php:91-96, App/Models/User.php:148-150 and App/Models/User.php:192-194 have no ORDER BY, so the database promises no order. The model lists rows in id order. Order-dependent facts (Items.GetAllByUserIdAppend, Items.SaveThenGetAll, and which row a lookup returns first when several match) hold for the model, not necessarily for the database.
- RememberedLogins.GetUser returns None for a missing user, where PHP's declared return type `User` would raise a TypeError.
- The getAllByUserId category join and its column list, and `getCategories` and `getAllItems`, are not modelled. They only read and reshape rows.
- Items.Item.Update: the form's id and category are bound as integers. The model applies `(int)` to the category and takes the id as an integer; MySQL's own string-to-integer conversion is not modelled.
- The dynamic-property constructors (`$this->$key = $value`) are modelled as constructors taking the named fields.
- Ids are assumed positive, as the auto-increment counter makes them. The loose `!= null` comparison on id 0 is modelled but never arises from stored rows.
- Controllers, views, redirects, flash messages and cookies are not modelled.
- Auth::getUser is not part of this model. The signed-in user's id is the `Items.Item.Save` parameter `currentUserId`.
