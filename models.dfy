/** The records of the storeroom application (classrooms, products, users,
    personas, requests) and the display helpers defined on them. */
module Models {
  import opened Common

  type AulaId = int
  type ProductoId = int
  type UserId = int

  /** A classroom (aula); `nombre` and `codigo` are each unique. */
  datatype Aula = Aula(id: AulaId, nombre: string, codigo: string)

  /** A product; `holder` is the denormalised current holder behind `en_prestamo`.
      Photo, safety-sheet URL, quantity and timestamps are not modelled. */
  datatype Producto = Producto(
    id: ProductoId,
    nombre: string,
    epc: string,
    posicion: string,
    nSerie: string,
    aula: AulaId,
    estanteria: string,
    descripcion: string,
    holder: Option<UserId>)

  /** An authentication user and the names of the groups it belongs to. */
  datatype User = User(
    id: UserId,
    username: string,
    email: string,
    isAuthenticated: bool,
    groups: set<string>)

  /** The per-user profile: its RFID tag and the last classroom it selected. */
  datatype Persona = Persona(user: UserId, epc: Option<string>, lastAula: Option<AulaId>)

  datatype HttpMethod = Get | Post

  /** An HTTP request: the user, the method, the path, the query string and
      form fields (one value per key) and whether it came from HTMX. */
  datatype Request = Request(
    user: User,
    verb: HttpMethod,
    path: string,
    query: map<string, string>,
    form: map<string, string>,
    htmx: bool)

  /** `request.GET.get(key)` / `request.POST.get(key)`. */
  function Param(params: map<string, string>, key: string): (r: Option<string>)
    ensures r.Some? <==> key in params
    ensures r.Some? ==> r.value == params[key]
  {
    if key in params then Some(params[key]) else None
  }

  /** `str(aula)`: the name followed by the code in parentheses. */
  function AulaStr(a: Aula): (s: string)
    ensures a.nombre <= s
    ensures |s| == |a.nombre| + |a.codigo| + 3
    ensures s[|a.nombre|..|a.nombre| + 2] == " (" && s[|s| - 1] == ')'
    ensures s[|a.nombre| + 2..|s| - 1] == a.codigo
  {
    a.nombre + " (" + a.codigo + ")"
  }

  function LastIndexOf(s: string, c: char): (r: Option<nat>)
    ensures r.Some? ==> r.value < |s| && s[r.value] == c
    ensures r.Some? ==> forall k :: r.value < k < |s| ==> s[k] != c
    ensures r.None? ==> forall k :: 0 <= k < |s| ==> s[k] != c
  {
    if |s| == 0 then None
    else if s[|s| - 1] == c then Some(|s| - 1)
    else LastIndexOf(s[..|s| - 1], c)
  }

  /** Reads a classroom display back into its name and code: the code is
      what stands between the last " (" and the closing ")". */
  function ParseAulaStr(s: string): Option<(string, string)> {
    if |s| == 0 || s[|s| - 1] != ')' then None
    else match LastIndexOf(s, '(')
      case None => None
      case Some(i) =>
        if i == 0 || i + 1 > |s| - 1 || s[i - 1] != ' ' then None
        else Some((s[..i - 1], s[i + 1..|s| - 1]))
  }

  /** The display of a classroom determines its name and code, as long as
      the code holds no '('. */
  lemma AulaStrRoundTrip(a: Aula)
    requires forall k :: 0 <= k < |a.codigo| ==> a.codigo[k] != '('
    ensures ParseAulaStr(AulaStr(a)) == Some((a.nombre, a.codigo))
  {
    var s := AulaStr(a);
    var n := |a.nombre|;
    assert s[n + 1] == '(';
    var r := LastIndexOf(s, '(');
    assert r.Some? ==> r.value >= n + 1;
    assert forall k :: n + 1 < k < |s| ==> s[k] != '(' by {
      forall k | n + 1 < k < |s| ensures s[k] != '(' {
        if k < |s| - 1 { assert s[k] == a.codigo[k - n - 2]; }
      }
    }
    assert r == Some(n + 1);
    assert s[n] == ' ' && s[..n] == a.nombre;
  }

  /** `str(producto)`. */
  function ProductoStr(p: Producto): (s: string)
    ensures s == p.nombre
  {
    p.nombre
  }

  /** `producto.en_prestamo`: the product has a recorded holder. */
  function EnPrestamo(p: Producto): (b: bool)
    ensures b <==> p.holder.Some?
  {
    p.holder.Some?
  }

  /** `str(user)`: the user name. */
  function UserStr(u: User): string {
    u.username
  }

  /** The kinds of the stored location record (`Ubicacion.Tipo`). */
  datatype Tipo = TipoEstanteria | TipoPrestamo

  /** The stored value of each kind. */
  function TipoValue(t: Tipo): string {
    match t
    case TipoEstanteria => "SHELF"
    case TipoPrestamo => "CO"
  }

  /** The human-readable label of each kind. */
  function TipoLabel(t: Tipo): (s: string)
    ensures s != [] && s[|s| - 1] != ')'
  {
    match t
    case TipoEstanteria => "En estantería"
    case TipoPrestamo => "En préstamo"
  }

  /** Reads a stored kind back; anything but the two stored values is rejected. */
  function TipoFromValue(v: string): (t: Option<Tipo>)
    ensures t.Some? <==> v == "SHELF" || v == "CO"
    ensures t.Some? ==> TipoValue(t.value) == v
  {
    if v == "SHELF" then Some(TipoEstanteria)
    else if v == "CO" then Some(TipoPrestamo)
    else None
  }

  /** The two kinds are told apart by their labels. */
  lemma TipoLabelInjective(t1: Tipo, t2: Tipo)
    requires TipoLabel(t1) == TipoLabel(t2)
    ensures t1 == t2
  {
  }

  lemma TipoValueRoundTrip(t: Tipo)
    ensures TipoFromValue(TipoValue(t)) == Some(t)
  {
  }

  /** A location record in the shape the display helper reads. */
  datatype UbicacionRegistro = UbicacionRegistro(producto: Producto, tipo: Tipo, persona: Option<User>)

  /** `str(ubicacion)`: product, arrow and kind label, then the person in
      parentheses when one is recorded. */
  function UbicacionStr(u: UbicacionRegistro): (s: string)
    ensures ProductoStr(u.producto) + " → " + TipoLabel(u.tipo) <= s
    ensures s[|s| - 1] == ')' <==> u.persona.Some?
    ensures u.persona.None? ==> |s| == |ProductoStr(u.producto) + " → " + TipoLabel(u.tipo)|
    ensures u.persona.Some? ==>
      var name := UserStr(u.persona.value);
      var base := ProductoStr(u.producto) + " → " + TipoLabel(u.tipo);
      && |s| == |base| + |name| + 3
      && s[|base|..|base| + 2] == " ("
      && s[|base| + 2..|s| - 1] == name
  {
    var base := ProductoStr(u.producto) + " → " + TipoLabel(u.tipo);
    if u.persona.Some? then base + " (" + UserStr(u.persona.value) + ")" else base
  }
}
