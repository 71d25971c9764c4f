/** The storeroom's views: which classroom a request works in, the
    freshness rule for the last tag read, the dashboard counts, the
    inventory listing, and the views that change stored rows (taking and
    returning products, creating and editing products, choosing a
    classroom, assigning a tag to a person). */
module Views {
  import opened Common
  import opened Json
  import opened Models
  import opened Decorators
  import opened Tables
  import opened EpcCache
  import opened Loans
  import MqttListener

  /** How old, in seconds, a sensor reading may be and still be offered. */
  const CacheLifetimeSeconds: int := 30

  /** The classroom whose cache key `persona_assign_epc` reads, whatever the request. */
  const PersonaEpcAula: AulaId := 1

  /** The query parameter naming a classroom and the form field choosing one. */
  const AulaParam: string := "aula"
  const AulaIdField: string := "aula_id"

  /** What `get_current_aula` settles on: a classroom, none, or an exception
      (a classroom id in the query that is not a numeral) that escapes the view. */
  datatype AulaChoice = Chosen(aula: Aula) | NoAula | ServerError

  /** `get_current_aula`: the query's `aula` parameter first, then the
      session's classroom, then the classroom the user last chose. The
      session holds the classroom id as an integer; the query holds text,
      converted by `textToPk`. */
  function GetCurrentAula(
    query: map<string, string>, session: Option<int>, user: User,
    personas: map<UserId, Persona>, aulas: map<AulaId, Aula>,
    textToPk: string -> Option<int>): (c: AulaChoice)
    ensures c.Chosen? ==> c.aula in aulas.Values
    ensures c.ServerError? <==> AulaParam in query && query[AulaParam] != "" && textToPk(query[AulaParam]).None?
  {
    var fromQuery := Param(query, AulaParam);
    if fromQuery.Some? && fromQuery.value != "" then
      match textToPk(fromQuery.value)
      case None => ServerError
      case Some(pk) => if pk in aulas then Chosen(aulas[pk]) else NoAula
    else if session.Some? && session.value != 0 && session.value in aulas then
      Chosen(aulas[session.value])
    else if user.isAuthenticated && user.id in personas then
      match personas[user.id].lastAula
      case None => NoAula
      case Some(id) => if id in aulas then Chosen(aulas[id]) else NoAula
    else NoAula
  }

  /** A classroom named in the query decides alone: an existing one is the
      one chosen, and neither the session nor the saved preference is
      consulted, even when the named one does not exist. */
  lemma QueryAulaWins(
    query: map<string, string>, s1: Option<int>, s2: Option<int>, u1: User, u2: User,
    p1: map<UserId, Persona>, p2: map<UserId, Persona>, aulas: map<AulaId, Aula>,
    textToPk: string -> Option<int>)
    requires AulaParam in query && query[AulaParam] != ""
    ensures GetCurrentAula(query, s1, u1, p1, aulas, textToPk) == GetCurrentAula(query, s2, u2, p2, aulas, textToPk)
    ensures textToPk(query[AulaParam]).Some? && textToPk(query[AulaParam]).value in aulas
      ==> GetCurrentAula(query, s1, u1, p1, aulas, textToPk) == Chosen(aulas[textToPk(query[AulaParam]).value])
    ensures textToPk(query[AulaParam]).Some? && textToPk(query[AulaParam]).value !in aulas
      ==> GetCurrentAula(query, s1, u1, p1, aulas, textToPk) == NoAula
  {
  }

  /** Without a query classroom, an existing session classroom is used
      whatever the saved preference says; a stale one is ignored, as if
      the session held none. */
  lemma SessionAula(
    query: map<string, string>, sid: int, user: User, personas: map<UserId, Persona>,
    aulas: map<AulaId, Aula>, textToPk: string -> Option<int>)
    requires AulaParam !in query || query[AulaParam] == ""
    ensures sid != 0 && sid in aulas ==> GetCurrentAula(query, Some(sid), user, personas, aulas, textToPk) == Chosen(aulas[sid])
    ensures sid !in aulas ==> GetCurrentAula(query, Some(sid), user, personas, aulas, textToPk) == GetCurrentAula(query, None, user, personas, aulas, textToPk)
  {
  }

  /** With neither a query nor a session classroom, the result is the
      user's saved classroom, or none for an anonymous user or one with no
      persona or no saved choice. */
  lemma PreferenceFallback(
    query: map<string, string>, user: User, personas: map<UserId, Persona>,
    aulas: map<AulaId, Aula>, textToPk: string -> Option<int>)
    requires AulaParam !in query || query[AulaParam] == ""
    ensures var c := GetCurrentAula(query, None, user, personas, aulas, textToPk);
      && (!user.isAuthenticated || user.id !in personas || personas[user.id].lastAula.None? ==> c == NoAula)
      && (user.isAuthenticated && user.id in personas && personas[user.id].lastAula.Some? && personas[user.id].lastAula.value in aulas
          ==> c == Chosen(aulas[personas[user.id].lastAula.value]))
  {
  }

  /** The tag of a cached reading, offered only when the reading has a tag
      and was taken at most `CacheLifetimeSeconds` before `now` by the
      sensor's clock. */
  function FreshEpc(data: Option<Reading>, now: Time): (r: Option<JsonValue>)
    ensures r.Some? ==> data.Some? && r.value == data.value.epc && Truthy(r.value)
    ensures data.None? || !Truthy(data.value.epc) ==> r.None?
  {
    if data.Some? && Truthy(data.value.epc) && data.value.leidoEn >= now - CacheLifetimeSeconds
    then Some(data.value.epc) else None
  }

  /** A reading with a tag is offered exactly up to 30 seconds after it was
      taken; so once stale it stays stale. */
  lemma FreshWindow(r: Reading, now: Time, later: Time)
    requires Truthy(r.epc)
    ensures FreshEpc(Some(r), now).Some? <==> now <= r.leidoEn + CacheLifetimeSeconds
    ensures now <= later && FreshEpc(Some(r), later).Some? ==> FreshEpc(Some(r), now).Some?
  {
  }

  /** What `get_latest_epc` answers: no content, the input fragment with a
      new tag and its reading time, or an escaping exception. */
  datatype EpcResponse = EpcNoContent | EpcFragment(epc: JsonValue, leidoEn: Time) | EpcServerError

  /** `get_latest_epc`: a tag is sent only when the classroom's cached
      reading is fresh and its tag differs from the one already in the form
      (the `current_epc` query parameter, empty when absent). */
  function GetLatestEpc(choice: AulaChoice, entries: map<string, Entry>, query: map<string, string>, now: Time): (r: EpcResponse)
    ensures r.EpcServerError? <==> choice.ServerError?
    ensures r.EpcFragment? <==>
      && choice.Chosen?
      && var offered := FreshEpc(Lookup(entries, KeyFor(choice.aula.id), now), now);
      && offered.Some? && offered.value != JStr(if "current_epc" in query then query["current_epc"] else "")
    ensures r.EpcFragment? ==>
      var data := Lookup(entries, KeyFor(choice.aula.id), now);
      data.Some? && r.epc == data.value.epc && r.leidoEn == data.value.leidoEn && Truthy(r.epc)
  {
    match choice
    case ServerError => EpcServerError
    case NoAula => EpcNoContent
    case Chosen(aula) =>
      var data := Lookup(entries, KeyFor(aula.id), now);
      var latest := FreshEpc(data, now);
      var current := match Param(query, "current_epc") case Some(v) => v case None => "";
      if latest.None? || latest.value == JStr(current) then EpcNoContent
      else EpcFragment(latest.value, data.value.leidoEn)
  }

  /** End to end: a message the listener stores about classroom `pk`, sent
      with an integer id, is offered by `get_latest_epc` in that classroom
      at `later` exactly while the cache entry lives and the reading is
      fresh, provided the form does not already hold the tag. */
  lemma ListenerToView(
    entries: map<string, Entry>, payload: seq<bv8>, lib: MqttListener.Library, aulas: map<AulaId, Aula>,
    storedAt: Time, later: Time, query: map<string, string>)
    requires var o := MqttListener.Decide(payload, lib, aulas.Keys);
      o.Stored? && Field(lib.json(lib.utf8(payload).value).value.fields, "aula_id").JInt?
    requires forall k :: k in aulas ==> aulas[k].id == k
    requires "current_epc" !in query
    ensures var o := MqttListener.Decide(payload, lib, aulas.Keys);
      var pk := Field(lib.json(lib.utf8(payload).value).value.fields, "aula_id").i;
      var after := entries[o.key := Entry(o.reading, storedAt + MqttListener.CacheTimeoutSeconds)];
      && pk in aulas
      && (GetLatestEpc(Chosen(aulas[pk]), after, query, later).EpcFragment?
          <==> later < storedAt + MqttListener.CacheTimeoutSeconds && later <= o.reading.leidoEn + CacheLifetimeSeconds)
  {
    var o := MqttListener.Decide(payload, lib, aulas.Keys);
    MqttListener.IntegerIdKey(payload, lib, aulas.Keys);
  }

  /** The dashboard figures: all products, those with a person, and the rest. */
  datatype DashboardCounts = DashboardCounts(total: nat, enManos: nat, enEstante: int)

  function WithPerson(ubicaciones: map<ProductoId, Ubicacion>): set<ProductoId> {
    set pk | pk in ubicaciones && ubicaciones[pk].estado == EnPersona
  }

  /** `dashboard`: the shelved figure is the total less those with a person. */
  function Dashboard(productos: map<ProductoId, Producto>, ubicaciones: map<ProductoId, Ubicacion>): (d: DashboardCounts)
    ensures d.total == |productos| && d.enManos == |WithPerson(ubicaciones)|
  {
    var total := |productos|;
    var enManos := |WithPerson(ubicaciones)|;
    DashboardCounts(total, enManos, total - enManos)
  }

  /** When every location row belongs to a product, the shelved figure counts
      exactly the products not with a person, and so is never negative. */
  lemma DashboardShelved(productos: map<ProductoId, Producto>, ubicaciones: map<ProductoId, Ubicacion>)
    requires ubicaciones.Keys <= productos.Keys
    ensures Dashboard(productos, ubicaciones).enEstante == |productos.Keys - WithPerson(ubicaciones)| >= 0
  {
    var a, b := productos.Keys, WithPerson(ubicaciones);
    assert b <= a;
    assert a == (a - b) + b;
    assert (a - b) * b == {};
  }

  /** The later `inventory` view's listing, or the exception of `get_current_aula`. */
  datatype Listing = Listed(productos: seq<Producto>) | ListingServerError

  /** `inventory`: the products (`qs`, in the table's order) of the current
      classroom when there is one, filtered by the query `q`. */
  function Inventory(qs: seq<Producto>, choice: AulaChoice, q: Option<string>): (r: Listing)
    ensures r.ListingServerError? <==> choice.ServerError?
    ensures r.Listed? ==> IsSubsequence(r.productos, qs)
    ensures r.Listed? ==> forall p :: p in r.productos <==>
      p in qs && (choice.Chosen? ==> p.aula == choice.aula.id) && (q.Some? && q.value != "" ==> Matches(p, q.value))
  {
    match choice
    case ServerError => ListingServerError
    case NoAula => Listed(FilterInventory(qs, q))
    case Chosen(aula) =>
      var inAula := InAula(qs, aula.id);
      IsSubsequenceTrans(FilterInventory(inAula, q), inAula, qs);
      Listed(FilterInventory(inAula, q))
  }

  /** `qs.filter(aula=...)`. */
  function InAula(qs: seq<Producto>, id: AulaId): (r: seq<Producto>)
    ensures IsSubsequence(r, qs)
    ensures forall p :: p in r <==> p in qs && p.aula == id
    ensures forall p :: multiset(r)[p] == if p.aula == id then multiset(qs)[p] else 0
  {
    if qs == [] then []
    else
      assert qs == [qs[0]] + qs[1..];
      if qs[0].aula == id then [qs[0]] + InAula(qs[1..], id)
      else InAula(qs[1..], id)
  }

  /** Where a view sends the browser. */
  datatype Target = ToInventory | ToProductoCreate | ToPersonaAssignEpc | ToReferer

  /** The answers of the state-changing views, by kind. */
  datatype ViewResponse =
    | LoginRedirect                 // `login_required` turned the request away
    | NotFound                      // `get_object_or_404`
    | MethodNotAllowed              // `require_POST`
    | Crash                         // an exception escaped the view
    | BadRequest(body: string)
    | RedirectTo(target: Target)
    | HxRedirect(target: Target)    // 204 with an `HX-Redirect` header
    | RowFragment(pk: ProductoId)   // `inventory_row` for an HTMX request
    | RenderForm(initialEpc: Option<JsonValue>)

  const NotYoursMessage: string := "No puedes devolver un producto que no tienes."

  /** The cleaned fields of a valid product form. */
  datatype ProductoFields = ProductoFields(
    epc: string, nombre: string, posicion: string, nSerie: string,
    aula: AulaId, estanteria: string, descripcion: string)

  /** The request's session: the classroom it chose, if any. */
  class Session {
    var currentAulaId: Option<int>

    constructor()
      ensures currentAulaId.None?
    {
      currentAulaId := None;
    }
  }

  /** The rows the views read and write: products, their location rows (at
      most one per product), the loans, the classrooms and the personas. */
  class Store {
    var productos: map<ProductoId, Producto>
    var ubicaciones: map<ProductoId, Ubicacion>
    var prestamos: seq<Prestamo>
    var aulas: map<AulaId, Aula>
    var personas: map<UserId, Persona>

    /** Classrooms are keyed by their ids and the loan records agree with
        the location rows. */
    ghost predicate Valid()
      reads this
    {
      && (forall k :: k in aulas ==> aulas[k].id == k)
      && Consistent(productos, ubicaciones, prestamos)
    }

    constructor()
      ensures Valid()
      ensures productos == map[] && ubicaciones == map[] && prestamos == [] && aulas == map[] && personas == map[]
    {
      productos, ubicaciones, prestamos, aulas, personas := map[], map[], [], map[], map[];
    }

    /** `toggle_prestamo`: a product on the shelf is taken by the requesting
        user and a loan opened; a product with a person is returned, by its
        holder or a teacher only, and the latest open loan closed. A product
        with no location row first gets one on the shelf. */
    method TogglePrestamo(request: Request, pk: ProductoId, now: Time) returns (resp: ViewResponse)
      requires Valid()
      modifies this
      ensures Valid()
      ensures productos == old(productos) && aulas == old(aulas) && personas == old(personas)
      ensures forall k :: k in productos ==> EnPrestamo(productos[k]) == EnPrestamo(old(productos)[k])
      ensures !request.user.isAuthenticated ==> resp == LoginRedirect && ubicaciones == old(ubicaciones) && prestamos == old(prestamos)
      ensures request.user.isAuthenticated && pk !in old(productos) ==> resp == NotFound && ubicaciones == old(ubicaciones) && prestamos == old(prestamos)
      ensures request.user.isAuthenticated && pk in old(productos) ==>
        var p := old(productos)[pk];
        var u := RowOf(old(productos), old(ubicaciones), pk);
        && (u.estado == Estante ==>
              && ubicaciones == old(ubicaciones)[pk := Checkout(u, request.user.id, now)]
              && prestamos == old(prestamos) + [Prestamo(pk, request.user.id, now, None)])
        && (u.estado == EnPersona && MayReturn(u, request.user) ==>
              && ubicaciones == old(ubicaciones)[pk := Return(u, p)]
              && prestamos == CloseLatest(old(prestamos), pk, now))
        && (u.estado == EnPersona && !MayReturn(u, request.user) ==>
              && resp == BadRequest(NotYoursMessage)
              && ubicaciones == old(ubicaciones) && prestamos == old(prestamos))
        && (u.estado == Estante || MayReturn(u, request.user) ==>
              resp == if request.htmx then RowFragment(pk) else RedirectTo(ToInventory))
    {
      if !request.user.isAuthenticated {
        return LoginRedirect;
      }
      if pk !in productos {
        return NotFound;
      }
      var p := productos[pk];
      var u := RowOf(productos, ubicaciones, pk);
      var user := request.user;
      if u.estado == Estante {
        CheckoutKeeps(productos, ubicaciones, prestamos, pk, user.id, now);
        ubicaciones := ubicaciones[pk := Checkout(u, user.id, now)];
        prestamos := prestamos + [Prestamo(pk, user.id, now, None)];
      } else if MayReturn(u, user) {
        ReturnKeeps(productos, ubicaciones, prestamos, pk, now);
        ubicaciones := ubicaciones[pk := Return(u, p)];
        prestamos := CloseLatest(prestamos, pk, now);
      } else {
        return BadRequest(NotYoursMessage);
      }
      resp := if request.htmx then RowFragment(pk) else RedirectTo(ToInventory);
    }

    /** `producto_create`: needs a current classroom. The form offers the
        classroom's fresh tag; a valid submission stores the product in that
        classroom under the new key `newPk` and puts it on the shelf where
        it says, then sends the browser to the listing or to a new form. */
    method ProductoCreate(
      request: Request, session: Session, form: Option<ProductoFields>, newPk: ProductoId,
      entries: map<string, Entry>, now: Time, textToPk: string -> Option<int>)
      returns (resp: ViewResponse)
      requires Valid() && newPk !in productos
      modifies this
      ensures Valid()
      ensures prestamos == old(prestamos) && aulas == old(aulas) && personas == old(personas)
      ensures var c := GetCurrentAula(request.query, session.currentAulaId, request.user, old(personas), old(aulas), textToPk);
        && (c.ServerError? ==> resp == Crash)
        && (c.NoAula? ==> resp == RedirectTo(ToInventory))
        && (c.Chosen? && request.verb == Get ==> resp == RenderForm(FreshEpc(Lookup(entries, KeyFor(c.aula.id), now), now)))
        && (c.Chosen? && request.verb == Post && form.None? ==> resp == RenderForm(None))
        && (c.Chosen? && request.verb == Post && form.Some? ==>
              var f := form.value;
              var p := Producto(newPk, f.nombre, f.epc, f.posicion, f.nSerie, c.aula.id, f.estanteria, f.descripcion, None);
              && productos == old(productos)[newPk := p]
              && ubicaciones == old(ubicaciones)[newPk := ShelfUbicacion(p)]
              && resp == RedirectTo(if Param(request.form, "action") == Some("list") then ToInventory else ToProductoCreate))
        && (!(c.Chosen? && request.verb == Post && form.Some?) ==> productos == old(productos) && ubicaciones == old(ubicaciones))
    {
      var current := GetCurrentAula(request.query, session.currentAulaId, request.user, personas, aulas, textToPk);
      if current.ServerError? {
        return Crash;
      }
      if current.NoAula? {
        return RedirectTo(ToInventory);
      }
      var initialEpc := FreshEpc(Lookup(entries, KeyFor(current.aula.id), now), now);
      if request.verb == Post {
        if form.Some? {
          var f := form.value;
          var p := Producto(newPk, f.nombre, f.epc, f.posicion, f.nSerie, current.aula.id, f.estanteria, f.descripcion, None);
          NewProductKeeps(productos, ubicaciones, prestamos, p);
          productos := productos[newPk := p];
          ubicaciones := ubicaciones[newPk := ShelfUbicacion(p)];
          var action := match Param(request.form, "action") case Some(a) => a case None => "new";
          return RedirectTo(if action == "list" then ToInventory else ToProductoCreate);
        }
        return RenderForm(None);
      }
      resp := RenderForm(initialEpc);
    }

    /** `producto_edit`: a valid submission replaces the product's editable
        fields and, while the product is on the shelf, copies its classroom,
        shelf unit and position to the location row. */
    method ProductoEdit(request: Request, pk: ProductoId, form: Option<ProductoFields>) returns (resp: ViewResponse)
      requires Valid()
      modifies this
      ensures Valid()
      ensures prestamos == old(prestamos) && aulas == old(aulas) && personas == old(personas)
      ensures pk !in old(productos) ==> resp == NotFound
      ensures pk in old(productos) && request.verb == Post && form.Some? ==>
        var f := form.value;
        var p := old(productos)[pk].(epc := f.epc, nombre := f.nombre, posicion := f.posicion, nSerie := f.nSerie,
                                     aula := f.aula, estanteria := f.estanteria, descripcion := f.descripcion);
        && productos == old(productos)[pk := p]
        && (pk in old(ubicaciones) ==> ubicaciones == old(ubicaciones)[pk := SyncShelf(old(ubicaciones)[pk], p)])
        && (pk !in old(ubicaciones) ==> ubicaciones == old(ubicaciones))
        && resp == (if request.htmx then HxRedirect(ToInventory) else RedirectTo(ToInventory))
      ensures !(pk in old(productos) && request.verb == Post && form.Some?) ==>
        productos == old(productos) && ubicaciones == old(ubicaciones)
      ensures pk in old(productos) && !(request.verb == Post && form.Some?) ==> resp == RenderForm(None)
    {
      if pk !in productos {
        return NotFound;
      }
      if request.verb == Post && form.Some? {
        var f := form.value;
        var p := productos[pk].(epc := f.epc, nombre := f.nombre, posicion := f.posicion, nSerie := f.nSerie,
                                aula := f.aula, estanteria := f.estanteria, descripcion := f.descripcion);
        productos := productos[pk := p];
        if pk in ubicaciones {
          ubicaciones := ubicaciones[pk := SyncShelf(ubicaciones[pk], p)];
        }
        return if request.htmx then HxRedirect(ToInventory) else RedirectTo(ToInventory);
      }
      resp := RenderForm(None);
    }

    /** `set_current_aula`: a known classroom chosen in the form becomes the
        session's classroom and the user's saved one, so that the next
        request without a classroom in its query works in it. A missing,
        empty or unknown choice changes neither. */
    method SetCurrentAula(request: Request, session: Session, textToPk: string -> Option<int>) returns (resp: ViewResponse)
      requires Valid()
      modifies this, session
      ensures Valid()
      ensures productos == old(productos) && ubicaciones == old(ubicaciones) && prestamos == old(prestamos) && aulas == old(aulas)
      ensures var choice := Param(request.form, AulaIdField);
        var pk := if choice.Some? && choice.value != "" then textToPk(choice.value) else None;
        if request.user.isAuthenticated && request.verb == Post && pk.Some? && pk.value in aulas then
          && session.currentAulaId == Some(pk.value)
          && request.user.id in personas
          && personas == old(personas)[request.user.id := personas[request.user.id]]
          && personas[request.user.id].lastAula == Some(pk.value)
          && (request.user.id in old(personas) ==>
                personas[request.user.id] == old(personas)[request.user.id].(lastAula := Some(pk.value)))
          && (request.user.id !in old(personas) ==>
                personas[request.user.id] == Persona(request.user.id, None, Some(pk.value)))
          && resp == RedirectTo(if request.htmx then ToInventory else ToReferer)
          && GetCurrentAula(map[], session.currentAulaId, request.user, personas, aulas, textToPk) == Chosen(aulas[pk.value])
        else
          && session.currentAulaId == old(session.currentAulaId)
          && personas == old(personas)
          && (!request.user.isAuthenticated ==> resp == LoginRedirect)
          && (request.user.isAuthenticated && request.verb != Post ==> resp == MethodNotAllowed)
          && (request.user.isAuthenticated && request.verb == Post && (choice.None? || choice.value == "") ==> resp == RedirectTo(ToInventory))
          && (request.user.isAuthenticated && request.verb == Post && choice.Some? && choice.value != "" && pk.None? ==> resp == Crash)
          && (request.user.isAuthenticated && request.verb == Post && pk.Some? && pk.value !in aulas ==> resp == RedirectTo(ToReferer))
    {
      if !request.user.isAuthenticated {
        return LoginRedirect;
      }
      if request.verb != Post {
        return MethodNotAllowed;
      }
      var aulaId := Param(request.form, AulaIdField);
      if aulaId.None? || aulaId.value == "" {
        return RedirectTo(ToInventory);
      }
      var pk := textToPk(aulaId.value);
      if pk.None? {
        return Crash;
      }
      if pk.value !in aulas {
        return RedirectTo(ToReferer);
      }
      var aula := aulas[pk.value];
      assert aula.id == pk.value;
      session.currentAulaId := Some(aula.id);
      var uid := request.user.id;
      var persona := if uid in personas then personas[uid] else Persona(uid, None, None);
      persona := persona.(lastAula := Some(aula.id));
      personas := personas[uid := persona];
      resp := RedirectTo(if request.htmx then ToInventory else ToReferer);
    }

    /** `persona_assign_epc`: the form offers the fresh tag cached for
        classroom 1; a valid submission sets the chosen persona's tag. */
    method PersonaAssignEpc(request: Request, form: Option<(UserId, string)>, entries: map<string, Entry>, now: Time)
      returns (resp: ViewResponse)
      requires Valid()
      modifies this
      ensures Valid()
      ensures productos == old(productos) && ubicaciones == old(ubicaciones) && prestamos == old(prestamos) && aulas == old(aulas)
      ensures request.verb == Post && form.Some? && form.value.0 in old(personas) ==>
        && personas == old(personas)[form.value.0 := old(personas)[form.value.0].(epc := Some(form.value.1))]
        && resp == RedirectTo(ToPersonaAssignEpc)
      ensures !(request.verb == Post && form.Some? && form.value.0 in old(personas)) ==> personas == old(personas)
      ensures request.verb == Get ==> resp == RenderForm(FreshEpc(Lookup(entries, KeyFor(PersonaEpcAula), now), now))
      ensures request.verb == Post && !(form.Some? && form.value.0 in old(personas)) ==> resp == RenderForm(None)
    {
      var initialEpc := FreshEpc(Lookup(entries, KeyFor(PersonaEpcAula), now), now);
      if request.verb == Post {
        if form.Some? && form.value.0 in personas {
          var (uid, epc) := form.value;
          personas := personas[uid := personas[uid].(epc := Some(epc))];
          return RedirectTo(ToPersonaAssignEpc);
        }
        return RenderForm(None);
      }
      resp := RenderForm(initialEpc);
    }
  }
}
