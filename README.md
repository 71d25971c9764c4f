# almacen_fp storeroom core, modelled in Dafny

almacen_fp is a Django application for a school storeroom. Products
(`Producto`) live in classrooms (`Aula`). Each product has one location row
(`Ubicacion`): either on a shelf (`ESTANTE`) or with a person (`PERSONA`).
Taking and returning a product appends and closes loan records (`Prestamo`).
An RFID reader publishes the tags it reads over MQTT. A listener stores the
last tag of each classroom in a cache. The product and person forms then offer
that tag while it is fresh.

This project models the rules at the core of that system, and proves them:

- **`Loans`, `Views.Store`:** the loan toggle state machine.
  - A product on the shelf is taken, and one open loan is appended.
  - A product with a person is returned, by its holder or a teacher only. Its shelf place is restored and its latest open loan is closed.
  - The store invariant is proved to be preserved: each location row is coherent, and a product has exactly one open loan while it is with a person and none otherwise.
- **`Views`:** the other view logic.
  - Which classroom a request works in (`get_current_aula`).
  - The 30-second freshness rule for cached tags and the "only a new tag" rule of `get_latest_epc`.
  - The dashboard figures and the classroom-filtered inventory listing.
  - Product creation and editing, and the shelf sync that editing performs.
  - Choosing a classroom, and assigning a tag to a person.
- **`MqttListener`, `EpcCache`:** the MQTT message handler, which is a chain of checks in a fixed order.
  - A message that passes every check causes exactly one cache write. It goes under `"last_epc:" + str(aula_id)`, with a 35-second timeout.
  - Any failing check ends the handling without a write.
  - The cache is a class holding a map of expiring entries.
- **`Decorators`:** the teacher-only access decorator: redirect to login, 403, or call the view.
- **`Tables`:** the inventory search, a case-insensitive substring filter over four fields.
- **`AddProfes`:** the command that adds teachers listed by e-mail.
  - A loop over the file's lines normalises each line and skips blank ones.
  - It looks each address up ignoring case, adds found users to the group and collects the addresses with no user.
  - The loop and its properties are stated for any lookup function. `Handle` runs the loop with the case-insensitive lookup over the users table.
- **`Models`:** the display strings (`__str__`) and the location-kind labels.

Library calls are parameters of the model: UTF-8 decoding, `json.loads`,
`datetime.fromisoformat`, `timezone.make_aware`, and Django's conversion of a
primary key given as text. The clock (`timezone.now()`) is a `now` argument.
The database tables, the cache and the session are maps, sequences and class
fields.

The model follows what `almacen/views.py` does, including three behaviours
a reader might not expect:
- Taking a product does not clear the shelf fields of its location row.
- Returning a product does not clear `tomado_en`.
- The views never write `Producto.holder`, so `en_prestamo` does not follow the toggle.

## Model

| member | source | states |
|---|---|---|
| Models.AulaStr | almacen/models.py:10-11 | the display is the name, then " (", the code and ")": prefix, length and the code between the parentheses |
| Models.AulaStrRoundTrip | almacen/models.py:10-11 | the display determines name and code when the code holds no "(" |
| Models.ProductoStr | almacen/models.py:42-43 | a product displays as its name |
| Models.EnPrestamo | almacen/models.py:45-47 | a product is on loan exactly when a holder is recorded |
| Models.TipoLabel | almacen/models.py:53-55 | the labels "En estantería" and "En préstamo" are non-empty and never end in ")", so a display ending in ")" means a person was appended |
| Models.TipoLabelInjective | almacen/models.py:53-55 | the two kinds have different labels |
| Models.TipoFromValue | almacen/models.py:53-55 | only the stored values "SHELF" and "CO" are kinds, and each is read back to the value it came from |
| Models.TipoValueRoundTrip | almacen/models.py:53-55 | reading a kind's stored value gives the kind back |
| Models.UbicacionStr | almacen/models.py:71-75 | the display starts with product, " → " and the kind label; with a person recorded it continues with " (", the person's name and ")", and nothing else; without one it is exactly that prefix |
| Decorators.CheckAccess | almacen/decorators.py:9-10 | unauthenticated users go to login, authenticated users outside "ProfesoresFP" are denied, and members are admitted; the three cases are exclusive; `is_teacher` (almacen/views.py:28-29) is the same test |
| Decorators.WrappedView | almacen/decorators.py:22-37 | redirect to the login URL plus "?next=" and the path exactly when unauthenticated; 403 with the fixed message exactly for authenticated non-members; otherwise the view's own result for the same request and arguments |
| Tables.Select | almacen/tables.py:7-12 | keeps, in order, exactly the products whose name, EPC, serial number or description contains the query ignoring case, each as many times as the input has it |
| Tables.FilterInventory | almacen/tables.py:5-13 | no query or an empty one returns the input unchanged; otherwise an order-preserving selection of exactly the matching products |
| Tables.SelectIdempotent | almacen/tables.py:7-12 | filtering the result again with the same query changes nothing |
| Tables.FilterInventoryIdempotent | almacen/tables.py:5-13 | `filter_inventory` applied twice with the same query equals applying it once |
| Common.StripShape | almacen/management/commands/add_profes.py:18 | `strip()` yields a middle stretch of the line with only white space dropped around it, with no white space at either end, empty exactly when the line is all white space |
| AddProfes.NormalizeIdempotent | almacen/management/commands/add_profes.py:18 | stripping and lower-casing twice is the same as once |
| AddProfes.NormalizedAt | almacen/management/commands/add_profes.py:17-18 | every line is taken in normal form, one for one and in order |
| AddProfes.EmailsNormalised | almacen/management/commands/add_profes.py:17-20 | every address the command works on is non-blank and already normalised |
| AddProfes.MatchingIds | almacen/management/commands/add_profes.py:22 | no user matches exactly when no e-mail equals the address once lower-cased |
| AddProfes.LookupEmailNone | almacen/management/commands/add_profes.py:22-25 | an address is missing exactly when no user's e-mail matches it ignoring case |
| AddProfes.LookupEmailFound | almacen/management/commands/add_profes.py:22 | the user found has the address, ignoring case, and is the only user who has it |
| AddProfes.LookupEmailMany | almacen/management/commands/add_profes.py:22 | the lookup raises for several users exactly when two different users have the address, ignoring case |
| AddProfes.LookupIgnoresCase | almacen/management/commands/add_profes.py:22 | the lookup gives the same answer for addresses that differ only in case |
| AddProfes.AddedPlusMissing | almacen/management/commands/add_profes.py:15-27 | for any lookup, a run that has not stopped has counted every non-blank line once, as added or as missing |
| AddProfes.AbortedIff | almacen/management/commands/add_profes.py:21-25 | the command stops exactly when the lookup of some non-blank line finds several users; a missing user does not stop it |
| AddProfes.MissingIff | almacen/management/commands/add_profes.py:21-25 | in a run that has not stopped, an address is reported missing exactly when it stands on a line and the lookup finds no user |
| AddProfes.MissingInFileOrder | almacen/management/commands/add_profes.py:21-25 | in a run that has not stopped, the missing list is the unmatched addresses in file order, repeats included |
| AddProfes.MembersUnion | almacen/management/commands/add_profes.py:26 | the group only grows: its new members are its old ones plus a set fixed by the file and the users |
| AddProfes.MembersFound | almacen/management/commands/add_profes.py:22-26 | every user added was found alone by the lookup of one of the non-blank lines |
| AddProfes.RerunKeepsMembers | almacen/management/commands/add_profes.py:26 | running the command again on the same file leaves the group as it is |
| AddProfes.StaysAborted | almacen/management/commands/add_profes.py:21-25 | once a lookup has raised, later lines change nothing |
| AddProfes.Reports | almacen/management/commands/add_profes.py:28-34 | the success message always comes first; the warning follows, as the only other message, exactly when some address is missing |
| AddProfes.AddFromLines | almacen/management/commands/add_profes.py:12-34 | for any lookup, the loop's count, missing list, group and stop flag equal the fold over the normalised lines that skips blank ones; a stopped run writes no message |
| AddProfes.Handle | almacen/management/commands/add_profes.py:12-34 | the same, with each address looked up ignoring case in the users table (`Finder`), so the lookup lemmas above apply to the command |
| EpcCache.KeyFor | almacen/views.py:21 | a classroom's key is "last_epc:" followed by its id in decimal |
| EpcCache.KeyForInjective | almacen/views.py:108 | two classrooms never share a key |
| EpcCache.Lookup | almacen/views.py:109 | `get` returns an entry's value exactly while the entry lives |
| EpcCache.Cache.Set | almacen/management/commands/mqtt_listener.py:111 | `set` replaces the entry under the key with one that lives `timeout` seconds from now; no other key changes |
| EpcCache.SetThenGet | almacen/management/commands/mqtt_listener.py:111 | a value just set is read back before its timeout and not after |
| EpcCache.SetOtherKey | almacen/management/commands/mqtt_listener.py:111 | setting one key leaves what every other key returns unchanged |
| MqttListener.AulaPk | almacen/management/commands/mqtt_listener.py:96 | an integer id is its own key; arrays, objects and null are refused |
| MqttListener.Decide | almacen/management/commands/mqtt_listener.py:55-118 | undecodable bytes and invalid JSON are recognised first; a stored result means every check passed, with the sensor's epc, the parsed reading time and the key "last_epc:" + str(aula_id) |
| MqttListener.StoredWhenValid | almacen/management/commands/mqtt_listener.py:57-111 | a message whose checks all pass is stored: the converse of the stored case of `Decide` |
| MqttListener.ChecksInOrder | almacen/management/commands/mqtt_listener.py:69-92 | a missing or falsy field stops the handling before the timestamp is parsed, and a bad timestamp stops it before the classroom is looked up |
| MqttListener.ReadingTime | almacen/management/commands/mqtt_listener.py:82-88 | an aware timestamp is stored unchanged and a naive one is localised |
| MqttListener.IntegerIdKey | almacen/management/commands/mqtt_listener.py:104 | a message with an integer classroom id is stored under the key the views read for that classroom |
| MqttListener.TextIdKeyDiffers | almacen/management/commands/mqtt_listener.py:104 | an id sent as the text "01" is accepted as classroom 1 but stored under a key the views do not read for classroom 1 |
| MqttListener.OnMessage | almacen/management/commands/mqtt_listener.py:55-118 | the handler's outcome is `Decide`'s; exactly one entry is written, with a 35-second timeout, when the outcome is stored, and the cache is untouched otherwise |
| Loans.DefaultUbicacion | almacen/views.py:254-259 | a product with no location row gets one on the shelf in the product's classroom |
| Loans.ShelfUbicacion | almacen/views.py:127-133 | a created product is put on the shelf at its own classroom, shelf unit and position |
| Loans.Checkout | almacen/views.py:261-265 | a taken product is with the user from now on; the shelf fields are kept |
| Loans.Return | almacen/views.py:269-275 | a returned product is on the shelf with no holder, at the product's classroom, shelf unit and position; the time it was taken is kept |
| Loans.SyncShelf | almacen/views.py:206-213 | a shelved row takes the product's place after an edit; a row with a person is not touched |
| Loans.MayReturnAfterCheckout | almacen/views.py:269 | after a taking, exactly the taker and the teachers may return the product |
| Loans.CheckoutThenReturn | almacen/views.py:261-275 | taking and then returning restores a shelved row that matched its product, except for the time it was taken |
| Loans.LatestOpen | almacen/views.py:276-280 | finds an open loan of the product with the greatest taking time, or none exactly when no loan of it is open |
| Loans.CloseLatest | almacen/views.py:276-283 | sets the return time of exactly that loan and of no other; with no open loan nothing changes |
| Loans.OpenCountAppend | almacen/views.py:266 | a new loan adds one open loan for its product and none for any other |
| Loans.ReturnClosesLastLoan | almacen/views.py:266-283 | the loan a return closes is the one the taking opened |
| Loans.OpenCountUpdate | almacen/views.py:282-283 | changing one loan changes an open count only by that loan's contribution |
| Loans.CloseLatestCount | almacen/views.py:276-283 | a return leaves one fewer open loan for the product and the same for every other product |
| Loans.NoneOpen | almacen/views.py:266 | a product with no loans has none open |
| Loans.OpenCountPositive | almacen/views.py:276-281 | when a loan is counted open, the return finds one to close |
| Loans.RowOf | almacen/views.py:254-259 | the row the toggle works on is on the shelf whenever the product had none |
| Loans.CheckoutKeeps | almacen/views.py:261-266 | taking a shelved product keeps location rows and loans consistent |
| Loans.ReturnKeeps | almacen/views.py:269-283 | returning a product that is with a person finds its open loan and keeps location rows and loans consistent |
| Loans.NewProductKeeps | almacen/views.py:124-133 | a new product on the shelf keeps location rows and loans consistent |
| Views.GetCurrentAula | almacen/views.py:32-54 | a chosen classroom is an existing one; the request fails exactly when the query names a classroom by a non-numeral |
| Views.QueryAulaWins | almacen/views.py:34-39 | a non-empty query classroom decides alone, ignoring session and preference: an existing one is the classroom chosen, and an unknown one gives no classroom |
| Views.SessionAula | almacen/views.py:41-46 | an existing session classroom wins over the preference; a stale one falls through as if absent |
| Views.PreferenceFallback | almacen/views.py:48-54 | otherwise the user's saved classroom, or none for anonymous users and users with no persona or no saved choice |
| Views.FreshEpc | almacen/views.py:111-118 | only a cached reading with a truthy tag is offered, and what is offered is its tag |
| Views.FreshWindow | almacen/views.py:22 | a reading is offered exactly until 30 seconds after the sensor took it, and once stale it stays stale |
| Views.GetLatestEpc | almacen/views.py:155-196 | a fragment is sent exactly when there is a classroom, its reading is fresh and the tag differs from the form's; it carries the reading's tag and time; the failure of `get_current_aula` propagates |
| Views.ListenerToView | almacen/views.py:160-186 | a reading stored by the listener with an integer id is offered in its classroom exactly while the cache entry lives and the reading is fresh |
| Views.Dashboard | almacen/views.py:59-61 | the total is the number of products and "in hands" the number of rows with a person |
| Views.DashboardShelved | almacen/views.py:59-61 | the shelved figure is the number of products not with a person, never negative |
| Views.Inventory | almacen/views.py:318-330 | lists, in table order, exactly the products of the current classroom, when there is one, that match the query; a failing `get_current_aula` propagates |
| Views.InAula | almacen/views.py:322-323 | the classroom filter keeps exactly that classroom's products, in order, each as many times as the input has it |
| Views.Store.constructor | almacen/views.py:249-291 | an empty store satisfies the store invariant |
| Views.Store.TogglePrestamo | almacen/views.py:249-291 | login is required; an unknown product gives 404; a shelved product is taken and one open loan appended; a product with a person is returned by its holder or a teacher, and its latest open loan closed; anyone else gets a bad request and nothing changes; products, and so every product's `en_prestamo`, are never changed, even for the product just taken; the store invariant is kept |
| Views.Store.ProductoCreate | almacen/views.py:96-151 | no current classroom redirects to the listing; GET offers the classroom's fresh tag; a valid POST stores the product in the current classroom with a shelved location row and redirects by the `action` field |
| Views.Store.ProductoEdit | almacen/views.py:199-224 | a valid POST replaces the editable fields and syncs the location row only while it is on the shelf; otherwise nothing changes |
| Views.Store.SetCurrentAula | almacen/views.py:294-315 | a known classroom becomes both the session's and the saved one, so the next request without a query classroom uses it; a user without a persona row gets a default one with no tag; a missing, empty or unknown choice changes neither |
| Views.Store.PersonaAssignEpc | almacen/views.py:349-382 | GET offers the fresh tag of the fixed key "last_epc:1"; a valid POST sets the chosen persona's tag and nothing else; an invalid POST renders the form again, with nothing offered and nothing changed |

## Left out

- Database, cache, session and message transport: these are modelled as maps, sequences and class fields. Transactions, concurrency and the MQTT connection and subscription (almacen/management/commands/mqtt_listener.py:34-53) are not modelled.
- Rendering, flash messages and logging are not modelled. Responses are tags that name the template or the redirect target.
- Library calls are function parameters: UTF-8 decoding, `json.loads`, `datetime.fromisoformat`, `timezone.make_aware` and Django's `int()` conversion of a text primary key. JSON floats are not modelled, so an `aula_id` or `epc` sent as a float is outside the model.
- Dates are whole seconds in one timeline. Time zones appear only through `make_aware`.
- Case folding and white space are ASCII only. Python's `lower()` and `strip()` also handle other Unicode characters.
- The ProductoForm, AulaForm and PersonaEPCForm validation is external. A form is given as valid cleaned data or as invalid. The repository's forms.py is an older version than the one views.py imports.
- The product list of `dashboard` (`recientes`, ordered by creation time) is not modelled. Creation timestamps are not modelled.
- Views.Store.ProductoCreate: the new product's key is a parameter that must not be in use, standing for the database's auto-increment. Photos, the safety-sheet URL and `cantidad` are not modelled.
- Views.Store.PersonaAssignEpc: does not check that the tag is unique among personas; that is left to the form and the database.
- `producto_delete`, `aulas_list_create`, `prestamos_overview`, `inventory_row` and the first `inventory` definition (almacen/views.py:72-76) are not modelled. The second definition replaces the first.
- Loans.LatestOpen: when two open loans of a product were taken at the same instant, the database may return either. The model picks the one recorded last.
- The repository's almacen/models.py is older than views.py. It defines no `Prestamo` or `Persona` and no `Ubicacion.estado` or `tomado_en` fields; its `Ubicacion.persona` field is the holder the views use. The shape of the missing ones here follows how views.py uses them. A `Prestamo`'s taking time is taken to be the moment it is created.
- Decorators: `login_required` is written out in `Views.Store.TogglePrestamo` and `Views.Store.SetCurrentAula`, and `require_POST` in the latter. The views wrapped by `profesores_required` (`Views.Store.ProductoCreate`, `Views.Store.ProductoEdit`, `Views.Store.PersonaAssignEpc`, `Views.Inventory`) are modelled as the view body only. `Decorators.WrappedView` states what the wrapper adds around any body. The `login_required` of `dashboard` and `get_latest_epc` is not repeated in their models.
- User deletion (which nulls `Ubicacion.persona`) and classroom deletion are not modelled.
- add_profes: opening and decoding the file (a missing file, or a byte that is not UTF-8 part-way through, almacen/management/commands/add_profes.py:16-17) and the group's `get_or_create` (line 14) are not modelled. The model is given the file's lines already decoded and the group's current members.
- The batch-accumulation processor that the tests import is not part of the repository's code and is not modelled.
