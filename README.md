# Local-rental server core, modelled in Dafny

This project models the decision logic of the Express server in `server.js`. The
server lets people and companies register and log in. It hands out e-mail
verification codes. Providers use it to register *locales* (venues) with a
contract, images and later an address and a PDF. The MySQL tables `usuarios`,
`Locales` and `ImagenesLocales` are in-memory sequences here, and the
verification-code object is a `map`.

Modules:

- `Wrappers` (`wrappers.dfy`): `Option` and `Result`.
- `JsText` (`js_text.dfy`): the JavaScript behaviour the handlers rely on.
  - `String.prototype.trim` over the ECMAScript white-space set.
  - The truthiness of an optional string field.
  - `Number.prototype.toString` for a non-negative integer.
- `ImageList` (`image_list.dfy`): `GROUP_CONCAT(url SEPARATOR ', ')` over a local's images, and the route's `imagenes ? imagenes.split(', ') : []` that turns the column back into a list.
- `Users` (`users.dfy`): the `/register` validator and INSERT tuple, the `usuarios` table as a class, and the `/login` decision.
- `Verification` (`verification.dfy`): the `verificationCodes` object as a class over `map<string,string>`, with `/sendVerificationEmail` and `/validateCode`.
- `Locales` (`locales.dfy`):
  - `/registrarLocal`, `/actualizar_local/:localId` and `/eliminarLocal/:localId` as methods of a class that holds the two locale tables;
  - the two GET routes as functions;
  - the step-by-step UPDATE builder.

A request field that was not sent is `None`. Calling `.trim()` on it throws a
`TypeError`, and Express answers that with 500. Randomness and I/O are
parameters:
- the drawn code number;
- whether the mail was sent;
- the stored upload file names;
- the request origin `protocol://host`.

Two behaviours of the code worth noting:
- `/registrarLocal` stores the contract with the image uploader, so no PDF-only filter applies to it.
- `/eliminarLocal` removes neither the contract file nor the PDF file.

## Model

| member | source | states |
|---|---|---|
| JsText.Trim | server.js:158-160 | The result is no longer than the input, has no white space at either end, and is empty exactly when the input is all white space |
| JsText.TrimIsInfix | server.js:158-160 | `trim` removes only a white prefix and a white suffix; what is left is the slice between them |
| JsText.Decimal | server.js:120 | `toString()` gives at least one decimal digit and no leading zero unless the number is 0 |
| JsText.DecimalRoundTrip | server.js:120 | The decimal text of a number reads back as that number |
| JsText.DecimalInjective | server.js:120 | Different numbers give different code texts |
| JsText.DecimalLength | server.js:120 | A number with k digits gives exactly k characters |
| ImageList.GroupConcat | server.js:410 | GROUP_CONCAT over a LEFT JOIN group is NULL exactly when the local has no image |
| ImageList.Split | server.js:436 | `split(', ')` gives at least one piece, and no piece contains the separator |
| ImageList.Decode | server.js:436 | NULL and "" give no URL; any other text gives a non-empty list of separator-free pieces that join back to that text |
| ImageList.JoinSplit | server.js:436 | Joining the pieces of a split gives back the original string |
| ImageList.SplitJoin | server.js:410 | Splitting the join of separator-free URLs gives back the list, in order |
| ImageList.JoinEmpty | server.js:410 | The joined text is empty only for the one-element list holding "" |
| ImageList.DecodeGroupConcat | server.js:486 | NULL or "" decodes to []; any other separator-free list decodes to itself |
| Users.CheckField | server.js:167 | One link of a left-to-right `!x.trim()` chain: it passes only on a filled field, and it throws on a missing field reached first |
| Users.PersonChain | server.js:167 | The four person-field tests all pass exactly when the four fields are non-blank after trim, and the chain throws exactly when the first field that is not filled was not sent |
| Users.Validate | server.js:158-170 | A missing email, password or role throws (500); an accepted body is a company body exactly when `nombreEmpresa` is truthy |
| Users.ValidateCompany | server.js:163-165 | Company branch: only the company 400 is possible, and acceptance gives a company tuple |
| Users.ValidatePerson | server.js:167-169 | Person branch: never the company error, and acceptance gives a person tuple |
| Users.CompanyValidation | server.js:162-165 | A company body is accepted iff email, nombreEmpresa, rol and contrasena are non-blank after trim; the tuple holds the four trimmed values |
| Users.PersonValidation | server.js:166-170 | A person body is accepted iff all seven fields are non-blank after trim; the tuple holds the trimmed values and the avatar as sent |
| Users.BlankEmailStopsPersonChain | server.js:167 | A blank email answers 400 before an unsent person field is trimmed |
| Users.PersonChainThrows | server.js:167 | In the person branch with a filled email, validation throws (the 500 answer) exactly when the person chain reaches a field that was not sent |
| Users.ValidateThrows | server.js:156-170 | Validation throws exactly when email, contrasena or rol was not sent, or when a person body with a filled email reaches an unsent person field first |
| Users.InsertValues | server.js:182-188 | The INSERT binds 4 values for a company and 8 for a person; ValidatedInsertValues states which request value sits at each position |
| Users.ValidatedInsertValues | server.js:182-188 | An accepted company body binds its trimmed email, nombreEmpresa, rol and contrasena; an accepted person body binds its trimmed email, nombres, apellidos, tipoDocumento, documento, rol and contrasena, then the avatar as sent |
| Users.RowOf | server.js:183-187 | The stored row has the new id and the email; its columns, read in the order the INSERT names them, are exactly the bound values, and a company row leaves apellidos, tipo_documento, documento and avatar NULL |
| Users.ValidatedRow | server.js:182-193 | The row stored for an accepted body, column by column: the trimmed company values with NULL person columns, or every person field trimmed with the avatar as sent |
| Users.ValidatedClean | server.js:179-188 | Every text value of an accepted registration is non-empty and trimmed |
| Users.InsertValuesClean | server.js:184-187 | Every bound value except the avatar is a present, clean string |
| Users.PersonFieldsSent | server.js:167 | An accepted person body sent every person field |
| Users.ValidatedRowWellFormed | server.js:186-187 | The row stored for an accepted body has clean columns and the trimmed email |
| Users.FindByEmail | server.js:172-175 | The lookup is None iff no row has the email; otherwise it returns a row with that email |
| Users.FindByEmailAppend | server.js:172-177 | After one row is appended, earlier rows still win, and the new row is found only when its email was free |
| Users.FindByEmailUnique | server.js:212-214 | With unique emails, the lookup returns the one row with that email |
| Users.AppendKeepsValid | server.js:172-193 | Appending a clean row whose email is free, under the next id, keeps emails unique, ids distinct and below the counter |
| Users.RegisterStatus | server.js:158-194 | 200 iff the user was inserted; 500 iff validation threw on an unsent field (ValidateThrows states when, including an unsent person field reached by the chain); 400 iff a required field was blank or the email was taken |
| Users.UsuariosTable.constructor | server.js:190-193 | The table starts empty, and the first id is 1 |
| Users.UsuariosTable.Register | server.js:153-197 | A rejected body or a taken email leaves the table unchanged; otherwise exactly one row of trimmed values is appended with the next id, and that id is returned; emails stay unique |
| Users.Login | server.js:204-226 | MissingCredentials (400) iff either field is absent or empty; UnknownUser (404) iff no row has the email; WrongPassword (400) iff the first row with the email has another password; LoggedIn (200) only with a row matching both email and password, returning its id, avatar, nombres and rol |
| Users.LoginStatus | server.js:204-226 | 200 iff the login succeeded; 404 iff no user has the email; 400 iff a credential was missing or the password was wrong |
| Users.LoginSucceedsIffCredentialsMatch | server.js:209-215 | With unique emails, login succeeds iff some row has both the email and the password |
| Users.LoginAfterRegister | server.js:179-224 | Logging in with a just-registered email and password returns the new row's fields |
| Users.SecondRegistrationFindsFirst | server.js:172-177 | A second registration with the same trimmed email finds the first row and is refused |
| Verification.KeySlots | server.js:143 | Two sent emails share a slot iff they are the same string; a body without an email uses the slot of the email "undefined" |
| Verification.Read | server.js:143 | Reading a key yields an own code iff the key is stored, and then it is the stored code; it yields `undefined` iff the key is neither stored nor inherited from Object.prototype |
| Verification.StrictEqualsRead | server.js:143-144 | For a stored key the check holds iff the supplied code is that string; for any other key it holds iff the key is not inherited and no code was supplied |
| Verification.Assign | server.js:121 | A write makes the key read as the new code and leaves every other key as it read before; a write to `__proto__` leaves the map unchanged |
| Verification.EmailRegistered | server.js:111-116 | The email counts as registered iff it was sent and some user row has it |
| Verification.SendStatus | server.js:116-134 | 200 iff the code was mailed; 400 iff the email is already registered; 500 iff sending the mail failed |
| Verification.CodeText | server.js:120 | The drawn code is six decimal digits whose value is the draw |
| Verification.VerificationCodes.constructor | server.js:69 | No code is pending at start |
| Verification.VerificationCodes.SendVerificationEmail | server.js:108-137 | A registered email gets 400 and leaves the map unchanged; otherwise the new code overwrites the key, even when the mail then fails (500) |
| Verification.VerificationCodes.ValidateCode | server.js:140-150 | Valid iff the stored value strictly equals the supplied code; on success only that key is deleted; on failure the map is unchanged |
| Verification.VerificationCodes.ValidateCodeStrict | server.js:140-150 | Valid iff a code is stored for the email and equals the supplied one; it deletes only that key |
| Verification.UnsentCodeAccepted | server.js:143-146 | On a fresh server, a body with an email and no code is answered as valid |
| Verification.UnsentCodeRefused | server.js:143-146 | The corrected check refuses that same body |
| Verification.ResendThenValidate | server.js:116-149 | After two sends, the first code no longer validates; the second validates once, then not again |
| Locales.UploadUrl | server.js:380 | The last path segment of an uploaded file's URL (images and contracts under `/uploadLocal/`, PDFs under `/papeles_locales/`) is the stored file name when that name holds no '/' |
| Locales.LocalFileUrls | server.js:380 | One URL per uploaded image, in upload order |
| Locales.ImageRows | server.js:382 | One `(localId, url)` row per URL, in order |
| Locales.UrlsOf | server.js:504-505 | A URL is listed for a local iff some image row of that local holds it, and the list is no longer than the table |
| Locales.UrlsOfAppend | server.js:504-505 | The URLs of a local over two concatenated tables are those of the first followed by those of the second |
| Locales.UrlsOfAbsent | server.js:504-505 | A local that no image row names has no URL |
| Locales.UrlsOfImageRows | server.js:381-382 | The rows inserted for a local give back its URLs in order, and another local sees none of them |
| Locales.FindLocal | server.js:463-476 | The lookup by id is None iff no local has the id |
| Locales.ViewOf | server.js:478-487 | The view carries the local's id, nombre, direccion, contrato_url, pdf_url and proveedor_id, and the split of the GROUP_CONCAT of its image URLs |
| Locales.ViewImages | server.js:486 | When no image URL of the local contains ", " or is empty, the view lists exactly its image URLs, in table order |
| Locales.LocalInfo | server.js:445-493 | The single-local read is None (404) iff the id is unknown; otherwise it is the view of the local with that id |
| Locales.LocalesOf | server.js:397-442 | The provider's list holds only that provider's locals, and is empty (404) iff the provider has none |
| Locales.LocalesOfExactly | server.js:410-437 | The provider's list holds the view of every local of that provider, and every view in it is the view of one of them |
| Locales.LocalesOfAppend | server.js:410-437 | Appending a local appends its view to its own provider's list and leaves other providers' lists unchanged |
| Locales.NewProviderReadsOneLocal | server.js:397-442 | A provider's first registered local is the whole of its list |
| Locales.FreshRowsUrls | server.js:381-382 | The image rows inserted for a fresh id are all and only the URLs that id has |
| Locales.DecodeUrls | server.js:410 | Non-empty URLs without ", " survive GROUP_CONCAT and the split unchanged |
| Locales.RegisteredLocalReadsBack | server.js:375-382 | A newly registered local reads back by id with exactly its image URLs in upload order, when no URL contains ", " |
| Locales.FileUrlNoSeparator | server.js:380 | A URL built from separator-free parts contains no ", " and is not empty |
| Locales.StatementPlaceholders | server.js:610-620 | The statement has 3 placeholders with the PDF clause and 2 without |
| Locales.BuildLocalUpdate | server.js:610-620 | The query starts with the address clause, has the pdf clause iff a PDF URL is present, and ends with the id clause; params are [direccion, pdfUrl?, localId]; placeholders equal params |
| Locales.UpdateStatus | server.js:601-628 | 200 iff the address was present and the update was issued; 400 iff the address was missing or empty |
| Locales.SetAddress | server.js:610-623 | Only the row with the id changes: it gets the address, and the PDF URL when one is present |
| Locales.WithoutLocal | server.js:534-535 | The deletion keeps exactly the locals whose id differs |
| Locales.WithoutImagesOf | server.js:526-527 | The deletion keeps only images of other locals |
| Locales.UrlsOfWithout | server.js:526-527 | Deleting one local's images leaves every other local's image list unchanged |
| Locales.FindLocalWithout | server.js:534-535 | Deleting one local leaves the lookup of every other id unchanged |
| Locales.UnlinkPathAsWrittenMissesFile | server.js:512-513 | The path built from the stored URL never names the stored file |
| Locales.UnlinkPathFindsFile | server.js:512-513 | The corrected path, from the URL's last segment, names exactly the stored file |
| Locales.UnlinkPaths | server.js:512-513 | One path per image URL, in order, each from that URL's last segment |
| Locales.CleanupTargetsStoredFiles | server.js:511-513 | The corrected deletion targets each stored image file, in order |
| Locales.RegisterKeepsValid | server.js:364-382 | Registering under the next id, with its image rows, keeps ids distinct and below the counter, and keeps every image attached to a local |
| Locales.SetAddressKeepsValid | server.js:610-623 | The UPDATE keeps the table invariant, and changes nothing when no local has the id |
| Locales.DeleteKeepsValid | server.js:500-545 | Deletion keeps the invariant, makes the local unreadable, and leaves every other local's view unchanged |
| Locales.WithoutLocalKeepsDistinct | server.js:534-535 | Deleting locals keeps ids distinct |
| Locales.LocalesTable.constructor | server.js:364-371 | Both tables start empty, and the first id is 1 |
| Locales.RegistrarStatus | server.js:344-390 | 200 iff the local was registered; 500 iff the upload limits were exceeded; 400 iff the contract, nombre or proveedorId was missing |
| Locales.LocalesTable.RegistrarLocal | server.js:344-393 | More than 10 images or 2 contracts: 500. No contract: 400, before nombre and proveedorId are checked. A falsy nombre or proveedorId: 400. Nothing changes on these paths. Otherwise one local row and one image row per image, in order (none without images); when neither the origin nor any image file name contains ", ", the local reads back by id with exactly those URLs |
| Locales.LocalesTable.ActualizarLocal | server.js:597-630 | A falsy direccion gives 400 and no change; otherwise the query is the address clause, the PDF clause when a PDF was uploaded, and the id clause; the placeholder count matches the params and the local's address (and PDF URL) is set; 200 even when the id is unknown, with the table unchanged |
| Locales.LocalesTable.EliminarLocal | server.js:500-545 | Returns the local's image URLs, removes its images and the local, and leaves every other local's view as it was |

## Left out

- Database errors: every `if (err) return res.status(500)` branch depends on MySQL failing, which the in-memory tables cannot do.
- MySQL collation: email lookups use exact string equality, so case-insensitive and trailing-space matching are not modelled.
- The order of rows and of GROUP_CONCAT: the model uses insertion order, which MySQL does not promise without ORDER BY.
- `group_concat_max_len`: GROUP_CONCAT truncation (1024 bytes by default) is not modelled.
- Non-string JSON values in request bodies (numbers, arrays, objects) are not modelled; fields are absent or strings.
- The race between the email check and the insert in `/register`: two concurrent requests are out of scope.
- nodemailer: sending is a parameter (`mailSent`); the mail body is not modelled.
- JWT signing in `/generatePasswordResetLink` is not part of this model.
- multer configuration:
  - file names from `Date.now()` and `Math.random()` are parameters;
  - the PDF MIME filter and the 5 MB limit are not modelled;
  - only the `maxCount` limits are modelled, as the 500 answer.
- The file-system side:
  - `fs.existsSync` and `fs.unlink` in `/eliminarLocal` are asynchronous, and their errors are only logged;
  - the model computes the paths and leaves out the disk.
- CollapseSlashes models the only `path.join` normalisation that occurs here (repeated `/`); `.` and `..` segments are not resolved.
- `fecha_registro` (set by MySQL's default) and `ImagenesLocales.id` are never decided by the handlers and are not modelled.
- A `/registrarLocal` request that is not multipart leaves `req.files` undefined, and the handler throws; the model takes the file lists as given.
- `req.protocol` and `req.get('host')` are one `origin` parameter. CORS, `listen`, static serving and logging are left out.
- The routes outside the core are not part of this model:
  - `/uploadImage`, `/updateAvatar`, `/googleverification`, `/generatePasswordResetLink` and `/getUserInfo`;
  - `/uploadLocalImage` and `/uploadLocalPDF`.
- `/actualizar_local` writes `locales` in lower case while other routes write `Locales`. On a case-sensitive MySQL server these are different tables; the model treats them as one.
- Locales.LocalesTable.ActualizarLocal: `localId` is a number, and the route's `!localId` test is not modelled, because a route parameter is never empty.
- The `:userId` and `:localId` route parameters are natural numbers in the model. MySQL's coercion of a text such as "5abc" to a number in `WHERE id = ?` is not modelled.
- Locales.LocalesTable.RegistrarLocal: `proveedorId` is an optional number. The source's text value and its coercion by MySQL are not modelled.

## Findings

| source | as written | input that shows it | evidently intended | confidence | as-written member | corrected member |
|---|---|---|---|---|---|---|
| server.js:143-146 | `storedCode === code` also holds when no code was issued and none is supplied (`undefined === undefined`), so the answer is 200 | POST /validateCode with `{"email": "someone@example.com"}` on a server that sent no code | only a code that was issued for the email and supplied in the body is valid | not executed; follows from JavaScript strict equality | Verification.UnsentCodeAccepted | Verification.UnsentCodeRefused |
| server.js:513 | `path.join(__dirname, '/uploadLocal', row.url_imagen)` joins the full URL (`http://host/uploadLocal/name`), so the path never names the stored file and no image is deleted | any local registered with at least one image, then DELETE /eliminarLocal/:id | unlink `uploadLocal/<file name>`, the last segment of the URL | not executed; follows from `path.join` normalisation | Locales.UnlinkPathAsWrittenMissesFile | Locales.UnlinkPathFindsFile |
