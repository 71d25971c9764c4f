/** The loan records behind the check-out / return toggle: each product's
    one location row (on the shelf or with a person) and the append-only
    list of loans, with the pure transitions the views apply to them. */
module Loans {
  import opened Common
  import opened Models
  import opened Decorators

  /** `Ubicacion.estado`: "ESTANTE" (on the shelf) or "PERSONA" (with someone). */
  datatype Estado = Estante | EnPersona

  /** A product's location row: its state, who holds it and since when, and
      the shelf coordinates (classroom, shelf unit, position). */
  datatype Ubicacion = Ubicacion(
    estado: Estado,
    persona: Option<UserId>,
    tomadoEn: Option<Time>,
    aula: AulaId,
    estanteria: string,
    posicion: string)

  /** One loan of a product to a user; open while `devueltoEn` is unset. */
  datatype Prestamo = Prestamo(producto: ProductoId, usuario: UserId, tomadoEn: Time, devueltoEn: Option<Time>)

  /** The holder field group is meaningful exactly in the "with a person" state. */
  predicate Coherent(u: Ubicacion) {
    && (u.estado == Estante ==> u.persona.None?)
    && (u.estado == EnPersona ==> u.persona.Some? && u.tomadoEn.Some?)
  }

  /** The row created for a product that has none: on the shelf in the
      product's classroom, with blank shelf unit and position. */
  function DefaultUbicacion(p: Producto): (u: Ubicacion)
    ensures u.estado == Estante && Coherent(u) && u.aula == p.aula
  {
    Ubicacion(Estante, None, None, p.aula, "", "")
  }

  /** The row written when a product is created: on the shelf where the product says. */
  function ShelfUbicacion(p: Producto): (u: Ubicacion)
    ensures u.estado == Estante && Coherent(u)
    ensures u.aula == p.aula && u.estanteria == p.estanteria && u.posicion == p.posicion
  {
    Ubicacion(Estante, None, None, p.aula, p.estanteria, p.posicion)
  }

  /** Taking a product: it is with `user` from `now`. The shelf coordinates
      are left as they were. */
  function Checkout(u: Ubicacion, user: UserId, now: Time): (v: Ubicacion)
    ensures v.estado == EnPersona && v.persona == Some(user) && v.tomadoEn == Some(now)
    ensures Coherent(v)
    ensures v.aula == u.aula && v.estanteria == u.estanteria && v.posicion == u.posicion
  {
    u.(estado := EnPersona, persona := Some(user), tomadoEn := Some(now))
  }

  /** Returning a product: back on the shelf where the product says. The time
      it was taken is left as it was. */
  function Return(u: Ubicacion, p: Producto): (v: Ubicacion)
    ensures v.estado == Estante && v.persona.None? && Coherent(v)
    ensures v.aula == p.aula && v.estanteria == p.estanteria && v.posicion == p.posicion
    ensures v.tomadoEn == u.tomadoEn
  {
    u.(estado := Estante, persona := None, aula := p.aula, estanteria := p.estanteria, posicion := p.posicion)
  }

  /** After an edit, a row on the shelf takes the product's coordinates; a
      row with a person is left alone. */
  function SyncShelf(u: Ubicacion, p: Producto): (v: Ubicacion)
    ensures u.estado == Estante ==> v == u.(aula := p.aula, estanteria := p.estanteria, posicion := p.posicion)
    ensures u.estado == EnPersona ==> v == u
    ensures Coherent(u) ==> Coherent(v)
  {
    if u.estado == Estante then u.(aula := p.aula, estanteria := p.estanteria, posicion := p.posicion) else u
  }

  /** Who may return a product: its holder or a teacher. */
  predicate MayReturn(u: Ubicacion, user: User) {
    u.persona == Some(user.id) || UserInGroupProfesores(user)
  }

  /** After a taking, the one who took the product may return it, and so
      may a teacher; any other user may not. */
  lemma MayReturnAfterCheckout(u: Ubicacion, taker: User, now: Time)
    ensures MayReturn(Checkout(u, taker.id, now), taker)
    ensures forall other: User ::
      MayReturn(Checkout(u, taker.id, now), other) <==> other.id == taker.id || UserInGroupProfesores(other)
  {
  }

  /** A taking followed by a return restores a shelved row that matched its
      product, except that the row keeps the time it was taken. */
  lemma CheckoutThenReturn(u: Ubicacion, p: Producto, user: UserId, now: Time)
    requires u.estado == Estante && Coherent(u)
    requires u.aula == p.aula && u.estanteria == p.estanteria && u.posicion == p.posicion
    ensures Return(Checkout(u, user, now), p) == u.(tomadoEn := Some(now))
  {
  }

  predicate IsOpen(l: Prestamo, pk: ProductoId) {
    l.producto == pk && l.devueltoEn.None?
  }

  /** How many loans of product `pk` are open. */
  function OpenCount(loans: seq<Prestamo>, pk: ProductoId): nat {
    if |loans| == 0 then 0
    else OpenCount(loans[..|loans| - 1], pk) + (if IsOpen(loans[|loans| - 1], pk) then 1 else 0)
  }

  /** The open loan of `pk` taken last, as `filter(devuelto_en__isnull=True)
      .order_by("-tomado_en").first()` picks it; among loans taken at the
      same instant the one recorded last. */
  function LatestOpen(loans: seq<Prestamo>, pk: ProductoId): (r: Option<nat>)
    ensures r.None? <==> forall j :: 0 <= j < |loans| ==> !IsOpen(loans[j], pk)
    ensures r.Some? ==> r.value < |loans| && IsOpen(loans[r.value], pk)
    ensures r.Some? ==> forall j :: 0 <= j < |loans| && IsOpen(loans[j], pk) ==>
      loans[j].tomadoEn < loans[r.value].tomadoEn || (loans[j].tomadoEn == loans[r.value].tomadoEn && j <= r.value)
  {
    if |loans| == 0 then None
    else
      var last := |loans| - 1;
      var prev := LatestOpen(loans[..last], pk);
      if !IsOpen(loans[last], pk) then prev
      else if prev.Some? && loans[prev.value].tomadoEn > loans[last].tomadoEn then prev
      else Some(last)
  }

  /** Closing the latest open loan of `pk` at `now`; when none is open the list is unchanged. */
  function CloseLatest(loans: seq<Prestamo>, pk: ProductoId, now: Time): (r: seq<Prestamo>)
    ensures |r| == |loans|
    ensures LatestOpen(loans, pk).None? ==> r == loans
    ensures LatestOpen(loans, pk).Some? ==>
      var i := LatestOpen(loans, pk).value;
      r[i] == loans[i].(devueltoEn := Some(now)) && forall j :: 0 <= j < |loans| && j != i ==> r[j] == loans[j]
  {
    match LatestOpen(loans, pk)
    case None => loans
    case Some(i) => loans[i := loans[i].(devueltoEn := Some(now))]
  }

  /** A new loan adds one open loan for its product and none for the others. */
  lemma {:induction false} OpenCountAppend(loans: seq<Prestamo>, l: Prestamo, pk: ProductoId)
    ensures OpenCount(loans + [l], pk) == OpenCount(loans, pk) + (if IsOpen(l, pk) then 1 else 0)
  {
    assert (loans + [l])[..|loans|] == loans;
  }

  /** The loan a return closes is the one the last taking opened, when no
      other loan of the product was open. */
  lemma ReturnClosesLastLoan(loans: seq<Prestamo>, pk: ProductoId, user: UserId, takenAt: Time, now: Time)
    requires forall j :: 0 <= j < |loans| ==> !IsOpen(loans[j], pk)
    ensures CloseLatest(loans + [Prestamo(pk, user, takenAt, None)], pk, now) == loans + [Prestamo(pk, user, takenAt, Some(now))]
  {
    var l := Prestamo(pk, user, takenAt, None);
    assert (loans + [l])[..|loans|] == loans;
  }

  /** Changing one loan changes the open count of `pk` by what that loan contributes. */
  lemma {:induction false} OpenCountUpdate(loans: seq<Prestamo>, i: nat, l: Prestamo, pk: ProductoId)
    requires i < |loans|
    ensures OpenCount(loans[i := l], pk) + (if IsOpen(loans[i], pk) then 1 else 0)
      == OpenCount(loans, pk) + (if IsOpen(l, pk) then 1 else 0)
  {
    var last := |loans| - 1;
    if i < last {
      OpenCountUpdate(loans[..last], i, l, pk);
      assert loans[i := l][..last] == loans[..last][i := l];
    } else {
      assert loans[i := l][..last] == loans[..last];
    }
  }

  /** Closing the latest open loan of `pk` leaves one fewer open for `pk` and
      the same number open for every other product. */
  lemma CloseLatestCount(loans: seq<Prestamo>, pk: ProductoId, now: Time, other: ProductoId)
    requires LatestOpen(loans, pk).Some?
    ensures OpenCount(CloseLatest(loans, pk, now), pk) == OpenCount(loans, pk) - 1
    ensures other != pk ==> OpenCount(CloseLatest(loans, pk, now), other) == OpenCount(loans, other)
  {
    var i := LatestOpen(loans, pk).value;
    OpenCountUpdate(loans, i, loans[i].(devueltoEn := Some(now)), pk);
    OpenCountUpdate(loans, i, loans[i].(devueltoEn := Some(now)), other);
  }

  /** When no loan of `pk` is open, none is counted. */
  lemma {:induction false} NoneOpen(loans: seq<Prestamo>, pk: ProductoId)
    requires forall j :: 0 <= j < |loans| ==> loans[j].producto != pk
    ensures OpenCount(loans, pk) == 0
  {
    if |loans| > 0 {
      NoneOpen(loans[..|loans| - 1], pk);
    }
  }

  /** A positive open count means some loan is open. */
  lemma {:induction false} OpenCountPositive(loans: seq<Prestamo>, pk: ProductoId)
    requires OpenCount(loans, pk) > 0
    ensures LatestOpen(loans, pk).Some?
  {
    if !IsOpen(loans[|loans| - 1], pk) {
      OpenCountPositive(loans[..|loans| - 1], pk);
      var j := LatestOpen(loans[..|loans| - 1], pk).value;
      assert IsOpen(loans[j], pk);
    }
  }

  /** The loan records agree with the location rows: rows and loans belong
      to existing products, every row is coherent, and a product has one
      open loan while it is with a person and none otherwise. */
  ghost predicate Consistent(productos: map<ProductoId, Producto>, ubicaciones: map<ProductoId, Ubicacion>, loans: seq<Prestamo>) {
    && ubicaciones.Keys <= productos.Keys
    && (forall i :: 0 <= i < |loans| ==> loans[i].producto in productos)
    && (forall pk :: pk in ubicaciones ==> Coherent(ubicaciones[pk]))
    && (forall pk :: pk in productos ==>
          OpenCount(loans, pk) == (if pk in ubicaciones && ubicaciones[pk].estado == EnPersona then 1 else 0))
  }

  /** The location row the toggle works on: the stored one, or a new one on the shelf. */
  function RowOf(productos: map<ProductoId, Producto>, ubicaciones: map<ProductoId, Ubicacion>, pk: ProductoId): (u: Ubicacion)
    requires pk in productos
    ensures pk !in ubicaciones ==> u.estado == Estante
  {
    if pk in ubicaciones then ubicaciones[pk] else DefaultUbicacion(productos[pk])
  }

  /** Taking a shelved product keeps the records consistent. */
  lemma CheckoutKeeps(
    productos: map<ProductoId, Producto>, ubicaciones: map<ProductoId, Ubicacion>, loans: seq<Prestamo>,
    pk: ProductoId, user: UserId, now: Time)
    requires Consistent(productos, ubicaciones, loans) && pk in productos
    requires RowOf(productos, ubicaciones, pk).estado == Estante
    ensures Consistent(productos, ubicaciones[pk := Checkout(RowOf(productos, ubicaciones, pk), user, now)],
                       loans + [Prestamo(pk, user, now, None)])
  {
    var l := Prestamo(pk, user, now, None);
    var loans' := loans + [l];
    forall q | q in productos
      ensures OpenCount(loans', q) == OpenCount(loans, q) + (if q == pk then 1 else 0)
    {
      OpenCountAppend(loans, l, q);
    }
    if pk !in ubicaciones {
      assert OpenCount(loans, pk) == 0;
    }
  }

  /** Returning a product that is with a person closes its one open loan
      and keeps the records consistent. */
  lemma ReturnKeeps(
    productos: map<ProductoId, Producto>, ubicaciones: map<ProductoId, Ubicacion>, loans: seq<Prestamo>,
    pk: ProductoId, now: Time)
    requires Consistent(productos, ubicaciones, loans)
    requires pk in ubicaciones && ubicaciones[pk].estado == EnPersona
    ensures LatestOpen(loans, pk).Some?
    ensures Consistent(productos, ubicaciones[pk := Return(ubicaciones[pk], productos[pk])], CloseLatest(loans, pk, now))
  {
    OpenCountPositive(loans, pk);
    var loans' := CloseLatest(loans, pk, now);
    forall q | q in productos
      ensures OpenCount(loans', q) == OpenCount(loans, q) - (if q == pk then 1 else 0)
    {
      CloseLatestCount(loans, pk, now, q);
    }
    forall i | 0 <= i < |loans'| ensures loans'[i].producto in productos {
      assert loans'[i].producto == loans[i].producto;
    }
  }

  /** A new product, put on the shelf where it says, keeps the records consistent. */
  lemma NewProductKeeps(
    productos: map<ProductoId, Producto>, ubicaciones: map<ProductoId, Ubicacion>, loans: seq<Prestamo>, p: Producto)
    requires Consistent(productos, ubicaciones, loans) && p.id !in productos
    ensures Consistent(productos[p.id := p], ubicaciones[p.id := ShelfUbicacion(p)], loans)
  {
    NoneOpen(loans, p.id);
  }
}
