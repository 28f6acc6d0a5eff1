# User management core of the SEDAPAL backend, in Dafny

This project models the user-management core of the SEDAPAL activity-tracking backend, a Spring
service. It covers:

- **`UsuarioService`**:
  - the creation of administrators and users, which writes the user table and the
    administrator–system assignment table and mails the credentials;
  - the three lookups;
  - `normalizarNombre`, which tidies a name;
  - the temporary-password generators.
- **`AdminSistemaService.getSistemasByAdmin`**.
- **The `UsuarioDTO` response projection** and the Bean Validation constraints on the request classes.
- **The `Usuario` and `AdminSistema` entities** with their `@PrePersist` hooks.
- **The derived queries** of the two repositories.

Files, in dependency order:

| file | module(s) | models |
|---|---|---|
| `wrappers.dfy` | `Wrappers`, `Errors` | `Option`/`Result`; the exceptions the core can raise, as error values |
| `text.dfy` | `Text` | the Java string primitives used: `trim`, `toLowerCase`, `split("\\s+")`, joining, `Character.toUpperCase`, integer to decimal string |
| `model.dfy` | `Model` | the stored rows, `Rol`, and the mutable entity objects with their `onCreate` hooks |
| `repositories.dfy` | `Queries`, `UsuarioRepository`, `AdminSistemaRepository`, `SistemaRepository` | Spring Data derived queries as filters over a table |
| `persistence.dfy` | `Persistence` | the database: the tables, the identity columns, and `save` of a new entity with its NOT NULL and UNIQUE checks |
| `nombres.dfy` | `Nombres` | `normalizarNombre`, `generarContrasenaUsuario`, `generarContrasenaAdmin` |
| `dto.dfy` | `UsuarioDTO` | `UsuarioResponse.fromEntity`/`fromEntityWithPassword`, the request constraints |
| `email.dfy` | `Email` | `EmailService.enviarCredenciales*` as a message log plus a delivery outcome |
| `admin_sistema_service.dfy` | `AdminSistemaService` | `getSistemasByAdmin` |
| `usuario_service.dfy` | `UsuarioService` | the lookups, and the `Service` class with the three `crear*` methods |

The code follows its source's form:
- **Mutated things are classes.** The entities, the database (`Persistence.Store`) and the mail
  log (`Email.EmailService`) are classes whose methods update fields in place.
- **`normalizarNombre` is a method.** It keeps the `StringBuilder` loop, and the loop is proved
  equal to the function `Nombres.NormalizeName`.
- **Queries and projections are functions.**

The environment becomes parameters:
- **`now`** is the clock (`nowUsuario` and `nowAsignacion` where two entities are stamped).
- **`draw`** is the value of `random.nextInt(90)`.
- **`entregado`** says whether the mail transport accepts the message.

A stored user is `NormalizeName` of the raw name, while the password initials and the mailed
names are the raw input, exactly as the code does. `Nombres.RawInitial` shows that the two can
diverge.

## Model

| member | source | states |
|---|---|---|
| Text.ToUpperChar | src/main/java/com/sedapal/service/UsuarioService.java:225 | `Character.toUpperCase` maps a-z to A-Z and leaves no lower-case ASCII letter; it never changes whether a character is `\s` or <= ' ' |
| Text.ToLowerChar | src/main/java/com/sedapal/service/UsuarioService.java:220 | `Character.toLowerCase` maps A-Z to a-z and leaves no upper-case ASCII letter; it never changes whether a character is `\s` or <= ' ' |
| Text.TrimStart | src/main/java/com/sedapal/service/UsuarioService.java:220 | the first loop of `trim()` drops a prefix made only of characters <= ' ' and stops at a character > ' ' or the end |
| Text.TrimEnd | src/main/java/com/sedapal/service/UsuarioService.java:220 | the second loop of `trim()` drops a suffix made only of characters <= ' ' and stops at a character > ' ' or the start |
| Text.TrimStartSuffix | src/main/java/com/sedapal/service/UsuarioService.java:220 | what the first loop of `trim()` keeps is a suffix of the input |
| Text.TrimEndPrefix | src/main/java/com/sedapal/service/UsuarioService.java:220 | what the second loop of `trim()` keeps is a prefix of its input |
| Text.Trim | src/main/java/com/sedapal/service/UsuarioService.java:220 | `trim()` never lengthens the text, and neither end of its result is a character <= ' ' |
| Text.TrimKept | src/main/java/com/sedapal/service/UsuarioService.java:220 | `trim()` keeps one contiguous slice of the input |
| Text.TrimDropped | src/main/java/com/sedapal/service/UsuarioService.java:220 | `trim()` removes only characters <= ' ', before and after the slice it keeps |
| Text.SliceOfSuffix | src/main/java/com/sedapal/service/UsuarioService.java:220 | the second loop of `trim()` keeps a prefix of what the first left, which is one slice of the input |
| Text.TrailingOfSuffix | src/main/java/com/sedapal/service/UsuarioService.java:220 | what the second loop drops lies at the end of the input |
| Text.TrimEmpty | src/main/java/com/sedapal/service/UsuarioService.java:220 | `trim()` gives "" exactly when every character is <= ' ' |
| Text.TrimStartAllTrimmable | src/main/java/com/sedapal/service/UsuarioService.java:220 | the first loop of `trim()` removes everything from a text made only of characters <= ' ' |
| Text.TrimIdentity | src/main/java/com/sedapal/service/UsuarioService.java:229 | `trim()` leaves a text unchanged exactly when neither end is <= ' ' |
| Text.TrimTrailingSpace | src/main/java/com/sedapal/service/UsuarioService.java:229 | `trim()` of a trimmed text plus one ' ' removes just that ' ' |
| Text.ToLower | src/main/java/com/sedapal/service/UsuarioService.java:220 | `toLowerCase()` keeps the length and lower-cases each character (ASCII) |
| Text.ToLowerAppend | src/main/java/com/sedapal/service/UsuarioService.java:220 | lower-casing distributes over concatenation |
| Text.LowerUndoesUpper | src/main/java/com/sedapal/service/UsuarioService.java:225 | lower-casing undoes the upper-casing of a character that was already lower case |
| Text.Words | src/main/java/com/sedapal/service/UsuarioService.java:221-224 | the non-empty parts of `split("\\s+")` are non-empty runs without a `\s` character; `WordsExactly` pins down which runs |
| Text.WordsSkipSpace | src/main/java/com/sedapal/service/UsuarioService.java:221 | leading `\s` characters add no part |
| Text.WordsConsWord | src/main/java/com/sedapal/service/UsuarioService.java:221 | a run without `\s` followed by `\s` or the end is the first part |
| Text.WordsOfInterleave | src/main/java/com/sedapal/service/UsuarioService.java:221 | words separated by runs of `\s` (non-empty between two words, any at the ends) are split back into exactly those words |
| Text.GapsOfDecompose | src/main/java/com/sedapal/service/UsuarioService.java:221 | the runs of `\s` that split cuts out, put back before, between and after the parts in order, give the input back |
| Text.WordsDecompose | src/main/java/com/sedapal/service/UsuarioService.java:221 | every text is its parts in order with runs of `\s` around and between them, so no character other than `\s` is lost or reordered |
| Text.WordsExactly | src/main/java/com/sedapal/service/UsuarioService.java:221 | a list is the parts of a text exactly when its entries are non-empty runs without `\s` and the text is those runs separated by runs of `\s` |
| Text.Split | src/main/java/com/sedapal/service/UsuarioService.java:221 | `split("\\s+")`: only the first part can be "", and only when the text is empty or starts with `\s`; the other parts are exactly the words |
| Text.WordsKeep | src/main/java/com/sedapal/service/UsuarioService.java:221 | every character of every part comes from the input, so a property of all input characters holds for every part |
| Text.WordsOfNoSpace | src/main/java/com/sedapal/service/UsuarioService.java:221 | a text without `\s` is split into itself, or into nothing when empty |
| Text.FirstWord | src/main/java/com/sedapal/service/UsuarioService.java:221 | a text starting with a non-`\s` character has a first part starting with that character |
| Text.LastWord | src/main/java/com/sedapal/service/UsuarioService.java:221 | a text ending with a non-`\s` character has a last part ending with that character |
| Text.WordsOfJoin | src/main/java/com/sedapal/service/UsuarioService.java:221-229 | splitting parts joined by single spaces gives back the parts |
| Text.JoinFirst | src/main/java/com/sedapal/service/UsuarioService.java:225-229 | joined parts start with the first character of the first part |
| Text.JoinLast | src/main/java/com/sedapal/service/UsuarioService.java:225-229 | joined parts end with the last character of the last part |
| Text.JoinSnoc | src/main/java/com/sedapal/service/UsuarioService.java:225-227 | joining one more part appends a ' ' and that part |
| Text.JoinSpacing | src/main/java/com/sedapal/service/UsuarioService.java:225-229 | parts joined by ' ' contain no leading, trailing or doubled space |
| Text.FlattenSnoc | src/main/java/com/sedapal/service/UsuarioService.java:225-227 | appending one more piece to the builder adds that piece at the end |
| Text.FlattenAppend | src/main/java/com/sedapal/service/UsuarioService.java:222-228 | the builder's text over two runs of pieces is the two texts concatenated |
| Text.NatToString | src/main/java/com/sedapal/service/UsuarioService.java:215 | the decimal form of an int is non-empty digits with no leading zero |
| Text.NatToStringRoundTrip | src/main/java/com/sedapal/service/UsuarioService.java:213-215 | reading the decimal form back gives the number |
| Nombres.Capitalize | src/main/java/com/sedapal/service/UsuarioService.java:225-226 | same length, first character upper-cased, the rest kept |
| Nombres.CapitalizeHead | src/main/java/com/sedapal/service/UsuarioService.java:225-226 | a capitalised part is its upper-cased first character followed by `substring(1)` |
| Nombres.AppendParts | src/main/java/com/sedapal/service/UsuarioService.java:222-228 | after the loop the builder holds, for each part in order, nothing if it is empty, else the capitalised part and a ' ' |
| Nombres.NormalizarNombre | src/main/java/com/sedapal/service/UsuarioService.java:218-230 | null gives null; otherwise the result is the trimmed, lower-cased input cut at runs of `\s`, each word capitalised, words joined by one ' ' |
| Nombres.SplitAppendsWords | src/main/java/com/sedapal/service/UsuarioService.java:221-224 | the empty leading part `split` can produce is skipped, so the builder over the split equals the builder over the words |
| Nombres.BuilderOfWords | src/main/java/com/sedapal/service/UsuarioService.java:222-228 | over non-empty words the builder holds the capitalised words joined by ' ', plus one trailing ' ' |
| Nombres.BuilderTrimmed | src/main/java/com/sedapal/service/UsuarioService.java:229 | the final `trim()` removes exactly that trailing ' ' |
| Nombres.PreparedEnds | src/main/java/com/sedapal/service/UsuarioService.java:220 | after trim and toLowerCase neither end is <= ' ' |
| Nombres.CapitalizeKeepsEnds | src/main/java/com/sedapal/service/UsuarioService.java:225-226 | capitalising a part keeps whether its first and last characters are <= ' ' |
| Nombres.NormalizedEnds | src/main/java/com/sedapal/service/UsuarioService.java:220-229 | a normalised name has neither end <= ' ', and is "" exactly when the prepared text is "" |
| Nombres.NormalizeNameTrimmed | src/main/java/com/sedapal/service/UsuarioService.java:229 | a normalised name has no leading or trailing blank |
| Nombres.NormalizeNameSpacing | src/main/java/com/sedapal/service/UsuarioService.java:220-229 | every `\s` character of a normalised name is a single ' ' between two non-`\s` characters |
| Nombres.NormalizeNameWords | src/main/java/com/sedapal/service/UsuarioService.java:220-226 | the words of a normalised name are the capitalised words of the input; each starts outside a-z and continues outside A-Z |
| Nombres.WordsOfLoweredAreLowered | src/main/java/com/sedapal/service/UsuarioService.java:220-221 | the parts of a lower-cased text are lower-cased |
| Nombres.CapitalizedWords | src/main/java/com/sedapal/service/UsuarioService.java:220-226 | capitalising the parts of a lower-cased text gives words that are upper case first, lower case after |
| Nombres.LowerIsLowered | src/main/java/com/sedapal/service/UsuarioService.java:220 | `toLowerCase()` output is left alone by `toLowerCase()` |
| Nombres.NormalizeNameEmpty | src/main/java/com/sedapal/service/UsuarioService.java:219-229 | a name is normalised to "" exactly when it is blank |
| Nombres.LowerCapitalized | src/main/java/com/sedapal/service/UsuarioService.java:220-226 | lower-casing a capitalised lower-case word gives the word back |
| Nombres.LowerJoinCapitalized | src/main/java/com/sedapal/service/UsuarioService.java:220-229 | lower-casing the capitalised words joined by ' ' gives the joined words back |
| Nombres.NormalizeNameIdempotent | src/main/java/com/sedapal/service/UsuarioService.java:218-230 | normalising a normalised name changes nothing |
| Nombres.GenerarContrasena | src/main/java/com/sedapal/service/UsuarioService.java:198-216 | fails (charAt(0)) exactly when a name is empty; otherwise prefix, the two upper-cased raw initials, and two digits reading as 10 + draw |
| Nombres.GenerarContrasenaUsuario | src/main/java/com/sedapal/service/UsuarioService.java:210-216 | 8 characters: "User", the upper-cased raw initials, two digits reading as 10..99; fails exactly on an empty name |
| Nombres.GenerarContrasenaAdmin | src/main/java/com/sedapal/service/UsuarioService.java:198-204 | 9 characters: "Admin", the upper-cased raw initials, two digits reading as 10..99; fails exactly on an empty name |
| Nombres.UserPasswordPattern | src/main/java/com/sedapal/service/UsuarioService.java:208-215 | when both names start with an ASCII letter the user password matches `User[A-Z][A-Z]\d\d` |
| Nombres.RawInitial | src/main/java/com/sedapal/service/UsuarioService.java:84-95 | the initial is taken from the raw name: a leading blank becomes the password's fifth character, which misses the pattern, while the stored name does not start with it |
| UsuarioDTO.FromEntity | src/main/java/com/sedapal/dto/UsuarioDTO.java:90-100 | copies id, nombre, apellido, email, rol and estado, and sets contrasena to null |
| UsuarioDTO.FromEntityWithPassword | src/main/java/com/sedapal/dto/UsuarioDTO.java:102-106 | `fromEntity` with contrasena set to the given password and nothing else changed |
| UsuarioDTO.FromEntityHidesPassword | src/main/java/com/sedapal/dto/UsuarioDTO.java:90-100 | two users give the same response exactly when they differ only in stored password and creation time |
| UsuarioDTO.WithPasswordDisclosesGiven | src/main/java/com/sedapal/dto/UsuarioDTO.java:102-106 | the disclosed password is the one passed in, whatever password is stored |
| UsuarioDTO.NotBlank | src/main/java/com/sedapal/dto/UsuarioDTO.java:17-18 | `@NotBlank`: the value is non-null and holds a character > ' ' |
| UsuarioDTO.NotBlankIsTrimNonEmpty | src/main/java/com/sedapal/dto/UsuarioDTO.java:17-18 | `@NotBlank` holds exactly when the value is non-null and its `trim()` is non-empty |
| UsuarioDTO.BlankCheck | src/main/java/com/sedapal/dto/UsuarioDTO.java:17-18 | a `@NotBlank` field contributes its message exactly when it is blank or null |
| UsuarioDTO.NullCheck | src/main/java/com/sedapal/dto/UsuarioDTO.java:30-31 | a `@NotNull` field contributes its message exactly when it is null |
| UsuarioDTO.EmailCheck | src/main/java/com/sedapal/dto/UsuarioDTO.java:23-24 | an `@Email` field contributes "Email inválido" exactly when it is non-null, non-empty and not accepted by the validator's address pattern |
| UsuarioDTO.PersonViolations | src/main/java/com/sedapal/dto/UsuarioDTO.java:38-46 | the nombre, apellido and email constraints every creation request shares: accepted exactly when all three are non-blank and the email passes `@Email`; each message appears exactly when its constraint fails, and no other appears |
| UsuarioDTO.ActividadViolations | src/main/java/com/sedapal/dto/UsuarioDTO.java:63-73 | the activity constraints: accepted exactly with non-blank nombreActividad, sistemaAbrev and equipoNombre and a non-null trimestre; each message appears exactly when its constraint fails, and no other appears |
| UsuarioDTO.CrearAdminViolations | src/main/java/com/sedapal/dto/UsuarioDTO.java:16-32 | accepted exactly with non-blank nombre, apellido, email and contrasena, an email the `@Email` pattern accepts, and a non-null idSistema; each message appears exactly when its constraint fails, and no other message appears |
| UsuarioDTO.CrearUsuarioViolations | src/main/java/com/sedapal/dto/UsuarioDTO.java:37-47 | accepted exactly with non-blank nombre, apellido and email and an email the `@Email` pattern accepts; each message appears exactly when its constraint fails, and no other message appears |
| UsuarioDTO.CrearUsuarioConActividadViolations | src/main/java/com/sedapal/dto/UsuarioDTO.java:52-76 | accepted exactly with the six non-blank strings, an email the `@Email` pattern accepts and a non-null trimestre; each of the eight messages appears exactly when its constraint fails, and no other message appears |
| UsuarioDTO.FechaMaximaUnconstrained | src/main/java/com/sedapal/dto/UsuarioDTO.java:75 | fechaMaxima, null included, never changes the verdict |
| UsuarioDTO.ValidarCredencialesViolations | src/main/java/com/sedapal/dto/UsuarioDTO.java:112-119 | accepted exactly with non-blank email and contrasena and an email the `@Email` pattern accepts; each message appears exactly when its constraint fails, and no other message appears |
| UsuarioDTO.NotBlankName | src/main/java/com/sedapal/dto/UsuarioDTO.java:38-42 | a non-blank name is non-empty and normalises to a non-empty name |
| UsuarioDTO.AcceptedRequestNames | src/main/java/com/sedapal/dto/UsuarioDTO.java:37-47 | an accepted CrearUsuarioRequest always yields a password and non-empty stored names |
| Model.Usuario.constructor | src/main/java/com/sedapal/model/Usuario.java:19-41 | a new Usuario has only estado set, to true |
| Model.Usuario.OnCreate | src/main/java/com/sedapal/model/Usuario.java:47-53 | sets fechaCreacion to now, turns a null estado into true and keeps a non-null one, changes nothing else |
| Model.Usuario.Insertable | src/main/java/com/sedapal/model/Usuario.java:21-41 | every `nullable = false` column (nombre, apellido, email, contrasena, rol, estado) is set |
| Model.Usuario.Row | src/main/java/com/sedapal/model/Usuario.java:19-41 | the stored row carries the object's id, email and estado |
| Model.AdminSistema.constructor | src/main/java/com/sedapal/model/AdminSistema.java:19-31 | a new AdminSistema has only estado set, to true |
| Model.AdminSistema.OnCreate | src/main/java/com/sedapal/model/AdminSistema.java:33-39 | sets fechaAsignacion to now, turns a null estado into true and keeps a non-null one, changes nothing else |
| Model.AdminSistema.Insertable | src/main/java/com/sedapal/model/AdminSistema.java:21-31 | every `nullable = false` column (idAdmin, idSistema, estado) is set |
| Model.AdminSistema.Row | src/main/java/com/sedapal/model/AdminSistema.java:19-31 | the stored row carries the object's id, idAdmin and idSistema |
| Queries.Filter | src/main/java/com/sedapal/repository/UsuarioRepository.java:17 | a List finder returns exactly the matching rows, all from the table |
| Queries.FilterAppend | src/main/java/com/sedapal/repository/UsuarioRepository.java:17 | filtering commutes with concatenation, so a List finder returns rows in the model's insertion order |
| Queries.FilterEmpty | src/main/java/com/sedapal/repository/UsuarioRepository.java:17 | a List finder is empty exactly when no row matches |
| Queries.Map | src/main/java/com/sedapal/service/UsuarioService.java:188-191 | `stream().map(...)` keeps length and order and applies the function to each element |
| Queries.MapAppend | src/main/java/com/sedapal/service/UsuarioService.java:188-191 | mapping commutes with concatenation |
| Queries.FindUnique | src/main/java/com/sedapal/repository/UsuarioRepository.java:13 | an Optional finder is empty exactly when no row matches, returns a matching row when one does, and fails (IncorrectResultSizeDataAccessException) exactly when several do |
| UsuarioRepository.FindByEmail | src/main/java/com/sedapal/repository/UsuarioRepository.java:13 | empty exactly when no user has the email; otherwise a stored user with that email |
| UsuarioRepository.ExistsByEmail | src/main/java/com/sedapal/repository/UsuarioRepository.java:15 | `existsByEmail`: some stored user, active or not, has the email |
| UsuarioRepository.FindByRolAndEstado | src/main/java/com/sedapal/repository/UsuarioRepository.java:17 | exactly the users with that rol and estado |
| UsuarioRepository.FindByEmailAndContrasenaAndEstado | src/main/java/com/sedapal/repository/UsuarioRepository.java:19 | empty exactly when no user matches all three columns; otherwise a stored user matching them |
| UsuarioRepository.AtMostOneWithEmail | src/main/java/com/sedapal/model/Usuario.java:27 | with the UNIQUE email column, a condition fixing the email matches at most one row |
| UsuarioRepository.FindByEmailSucceeds | src/main/java/com/sedapal/repository/UsuarioRepository.java:13-15 | with unique emails `findByEmail` never fails, and finds a user exactly when `existsByEmail` holds |
| UsuarioRepository.FindByCredentialsSucceeds | src/main/java/com/sedapal/repository/UsuarioRepository.java:19 | with unique emails the credential finder never fails |
| AdminSistemaRepository.FindByIdAdminAndEstado | src/main/java/com/sedapal/repository/AdminSistemaRepository.java:13 | exactly the assignments with that idAdmin and estado |
| AdminSistemaRepository.FindByIdSistemaAndEstado | src/main/java/com/sedapal/repository/AdminSistemaRepository.java:15 | exactly the assignments with that idSistema and estado |
| AdminSistemaRepository.FindByIdAdminAndIdSistemaAndEstado | src/main/java/com/sedapal/repository/AdminSistemaRepository.java:17 | empty exactly when no assignment matches all three columns; a stored matching assignment when exactly one does; `NonUniqueResult` exactly when several do |
| AdminSistemaRepository.ExistsByIdAdminAndIdSistemaAndEstado | src/main/java/com/sedapal/repository/AdminSistemaRepository.java:19 | some stored assignment matches idAdmin, idSistema and estado |
| AdminSistemaRepository.ExistsIffFindNotEmpty | src/main/java/com/sedapal/repository/AdminSistemaRepository.java:17-19 | the exists query holds exactly when the finder does not come back empty |
| AdminSistemaRepository.DuplicateAssignments | src/main/java/com/sedapal/model/AdminSistema.java:21-25 | on two active assignments of one pair under consecutive ids (what two successful `Store.SaveAdminSistema` calls append, since nothing makes the pair unique) the exists query holds while the Optional finder fails |
| SistemaRepository.FindAllById | src/main/java/com/sedapal/service/AdminSistemaService.java:39 | exactly the stored systems whose id was requested |
| Persistence.IdentityOrderSnoc | src/main/java/com/sedapal/model/Usuario.java:16-19 | handing out the next identity keeps identities increasing and unused |
| Persistence.UniqueEmailsSnoc | src/main/java/com/sedapal/model/Usuario.java:27 | inserting a row whose email is new keeps emails unique |
| Persistence.Store.constructor | src/main/java/com/sedapal/model/Usuario.java:16-28 | an empty database is valid: unique emails, identities in order |
| Persistence.Store.SaveUsuario | src/main/java/com/sedapal/model/Usuario.java:16-53 | runs `onCreate`; inserts exactly the entity's row with the next identity and sets the id when every NOT NULL column is set and the email is new; otherwise nothing changes; keeps emails unique |
| Persistence.Store.SaveAdminSistema | src/main/java/com/sedapal/model/AdminSistema.java:16-39 | runs `onCreate`; inserts exactly the entity's row with the next identity when idAdmin, idSistema and estado are set; otherwise nothing changes |
| Email.EmailService.EnviarCredenciales | src/main/java/com/sedapal/service/EmailService.java:30-47 | hands exactly one credentials message to the transport, or fails with the mail error and sends nothing |
| Email.EmailService.EnviarCredencialesConActividad | src/main/java/com/sedapal/service/EmailService.java:280-301 | hands exactly one credentials-and-activity message to the transport, or fails and sends nothing |
| AdminSistemaService.SistemaIds | src/main/java/com/sedapal/service/AdminSistemaService.java:27-32 | an id is collected exactly when some active assignment of the administrator names it |
| AdminSistemaService.SistemaIdsCons | src/main/java/com/sedapal/service/AdminSistemaService.java:27-32 | the collected list splits off the contribution of the table's first row |
| AdminSistemaService.SistemaIdsInOrder | src/main/java/com/sedapal/service/AdminSistemaService.java:27-32 | the collected ids are those of the active assignments of that administrator, in the model's insertion order, duplicates kept |
| AdminSistemaService.GetSistemasByAdmin | src/main/java/com/sedapal/service/AdminSistemaService.java:25-40 | a system is returned exactly when it is stored and an active assignment of the administrator names it; no such assignment gives the empty list |
| AdminSistemaService.ShortCircuitAgrees | src/main/java/com/sedapal/service/AdminSistemaService.java:34-39 | the early empty return agrees with `findAllById` over the collected ids |
| AdminSistemaService.NewAdminSistemas | src/main/java/com/sedapal/service/AdminSistemaService.java:25-40 | an administrator whose only assignment is one new active assignment gets exactly the stored systems with that id |
| AdminSistemaService.InactiveIgnored | src/main/java/com/sedapal/service/AdminSistemaService.java:27 | an inactive assignment changes nobody's systems |
| UsuarioService.ValidarCredenciales | src/main/java/com/sedapal/service/UsuarioService.java:165-172 | a success is the response of an active user matching email and password; "Credenciales inválidas" exactly when no active user matches |
| UsuarioService.ValidarCredencialesExact | src/main/java/com/sedapal/service/UsuarioService.java:165-168 | with unique emails the login succeeds exactly when an active user matches both, and fails only with "Credenciales inválidas" |
| UsuarioService.ObtenerPorEmail | src/main/java/com/sedapal/service/UsuarioService.java:177-182 | a success is the response of a user with that email; "Usuario no encontrado" exactly when none has it |
| UsuarioService.ObtenerPorEmailExact | src/main/java/com/sedapal/service/UsuarioService.java:177-179 | with unique emails the lookup succeeds exactly when `existsByEmail` holds |
| UsuarioService.ObtenerAdministradores | src/main/java/com/sedapal/service/UsuarioService.java:187-192 | the responses of exactly the active administrators |
| UsuarioService.ObtenerAdministradoresSnoc | src/main/java/com/sedapal/service/UsuarioService.java:187-192 | in the model's insertion order, a user stored later is listed after all earlier ones, and only if an active administrator |
| UsuarioService.CreatedUserIsFound | src/main/java/com/sedapal/service/UsuarioService.java:165-182 | a new active user with a new email logs in with the stored password and is found by email |
| UsuarioService.AdminsAssignedSnocUser | src/main/java/com/sedapal/service/UsuarioService.java:99 | storing a user keeps every assignment's administrator stored |
| UsuarioService.AdminsAssignedSnocAdmin | src/main/java/com/sedapal/service/UsuarioService.java:49-58 | storing an administrator with an assignment to it keeps every assignment's administrator stored |
| UsuarioService.NextIdUnassigned | src/main/java/com/sedapal/service/UsuarioService.java:49-58 | no assignment yet names the identity the next user gets |
| UsuarioService.Service.constructor | src/main/java/com/sedapal/service/UsuarioService.java:17-23 | the service works on the given database and mail transport |
| UsuarioService.Service.SaveNew | src/main/java/com/sedapal/service/UsuarioService.java:37-49 | stores exactly one active user with the normalised names under the next identity |
| UsuarioService.Service.Insert | src/main/java/com/sedapal/service/UsuarioService.java:41-49 | a new entity with the given fields saves as exactly one appended row |
| UsuarioService.Service.SaveAssignment | src/main/java/com/sedapal/service/UsuarioService.java:53-58 | stores exactly one active assignment of the administrator to the system |
| UsuarioService.Service.CrearAdministrador | src/main/java/com/sedapal/service/UsuarioService.java:30-71 | a taken email fails and changes nothing; otherwise exactly one admin user with normalised names and the given password, stamped with the first clock reading, and exactly one active assignment of its new id to idSistema, stamped with the second, are stored; a mail failure undoes nothing; the response hides the password; the new administrator then gets exactly the stored systems with that id |
| UsuarioService.Service.Registrar | src/main/java/com/sedapal/service/UsuarioService.java:77-99 | a taken email fails, then an empty name fails, both changing nothing; otherwise exactly one active `usuario` with normalised names and the password built from the raw names is stored, and the row and password are given back |
| UsuarioService.Service.CrearUsuario | src/main/java/com/sedapal/service/UsuarioService.java:77-112 | a taken email fails, then an empty name fails, both changing nothing; otherwise exactly one active `usuario` with normalised names and the password built from the raw names is stored; a mail failure undoes nothing; the response discloses the password |
| UsuarioService.Service.CrearUsuarioConActividad | src/main/java/com/sedapal/service/UsuarioService.java:118-160 | as `crearUsuario`, with the activity, system, team, quarter and deadline carried in the mail |

## Left out

- Unicode: `toUpperCase`/`toLowerCase` are modelled on ASCII letters only; every other character is left unchanged.
- Locale: `toLowerCase()` uses the default locale, so under a Turkish locale 'I' becomes a dotless 'ı'. The model assumes a locale with the ASCII mapping.
- Unicode: the `\s` class and `trim()` are the Java definitions on characters (`\s` is ' ' and '\t'..'\r'; trim strips characters <= ' ').
- Strings are sequences of Unicode scalar values, not of UTF-16 code units. For a name that starts with a supplementary character, Java's `charAt(0)` in `generarContrasena` takes a lone high surrogate as the initial, while `Nombres.GenerarContrasena` takes the whole character.
- List finders without `OrderBy` (`findByRolAndEstado`, `findByIdAdminAndEstado`): the database promises no order; the model returns rows in insertion order. The membership facts do not depend on that order.
- The `@Email` address pattern is the parameter `wellFormed` of the `*Violations` functions. Its regular expression lives in Hibernate Validator, not in this repository; the model keeps only that null and "" pass it.
- Mail transport is not modelled: the HTML bodies, the subjects (`obtenerAsunto`), the sender address and `JavaMailSender` are outside the model. The outcome of a send is the `entregado` parameter, and an accepted message is recorded with its data fields.
- The clock (`LocalDateTime.now()`) is a parameter. Each `onCreate` reads it once, so `crearAdministrador` takes two readings: `nowUsuario` and `nowAsignacion`.
- `random.nextInt(90)` is the `draw` parameter, ranging over 0..89.
- Logging is not modelled.
- The controllers are not modelled. The service methods take non-null strings, which is what the validated requests deliver; `fechaMaxima` alone may be null.
- `@Transactional` rollback is not modelled: in the model every `save` the services reach succeeds, so nothing is ever rolled back.
- Concurrent requests are not modelled. Two creations racing on one email would meet the UNIQUE constraint in the database.
- Identity generation is modelled as a counter per table.
- `Persistence.Store.SaveUsuario`: saving (merging) an entity that already has an id is not modelled (`requires u.id == None`); the core only saves new entities.
- `Persistence.Store.SaveAdminSistema`: the same restriction to new entities.
- `SistemaRepository.FindAllById` is stated as membership only: which stored systems come back. The order and duplicate handling of JPA's `findAllById` are not visible in this repository.
- `SistemaRepository.findByEstado` has no caller in this core.
- The `Sistema` table is read-only here.
- `UsuarioRepository.FindByEmail`: an Optional finder with several matches would throw. With the UNIQUE email column this cannot happen (`FindByEmailSucceeds`), and the model keeps the error case.
- `AdminSistemaRepository.ExistsIffFindNotEmpty`: the exists query holds exactly when the finder "returns a value or fails". With duplicate active assignments Spring's Optional finder throws instead of returning one (`DuplicateAssignments`).
- `Nombres.GenerarContrasenaAdmin` has no caller in this core. `crearAdministrador` stores the password it is given.
- Database errors other than the NOT NULL and UNIQUE checks are not modelled.
