/**
 * The whole API as one state machine: the four tables, every endpoint as a
 * transition, the upload middleware in front of the product writes and the
 * error handler behind it. The token check of the authentication
 * middleware is a flag on the request: protected endpoints are only
 * reached with it set.
 */
module Api {
  import opened Options
  import opened Strings
  import opened Tables
  import opened Schema
  import opened Http
  import opened Upload
  import Kategori
  import Produk
  import Stok
  import Auth

  /** The database: one table per entity. */
  datatype Db = Db(
    users: Table<UserRow>,
    kategoris: Table<KategoriRow>,
    produks: Table<ProdukRow>,
    stoks: Table<StokRow>)

  function EmptyDb(): (db: Db)
    ensures db.users.rows == map[] && db.kategoris.rows == map[]
    ensures db.produks.rows == map[] && db.stoks.rows == map[]
  {
    Db(Empty(), Empty(), Empty(), Empty())
  }

  /** What a request's surroundings supply: today's date (`YYYY-MM-DD`),
      `Date.now()`, the random suffix, the request's protocol and host,
      bcrypt's hash and compare, and the token signer (secret included). */
  datatype Env = Env(
    today: string,
    now: nat,
    rand: RandomSuffix,
    origin: Origin,
    hash: (string, nat) -> string,
    verify: (string, string) -> bool,
    sign: Auth.TokenClaims -> string)

  /** One request per endpoint, with its path parameter and body fields. */
  datatype Request =
    | Register(nama_user: string, email: string, password: string)
    | Login(email: string, password: string)
    | Logout
    | ListKategori
    | GetKategori(id: nat)
    | CreateKategori(nama_kategori: string)
    | UpdateKategori(id: nat, nama_kategori: string)
    | DeleteKategori(id: nat)
    | ListProduk
    | GetProduk(id: nat)
    | CreateProduk(fields: Produk.Fields, photo: Option<IncomingFile>)
    | UpdateProduk(id: nat, fields: Produk.Fields, photo: Option<IncomingFile>)
    | DeleteProduk(id: nat)
    | ListStok
    | GetStok(id: nat)
    | CreateStok(id_produk: nat, jumlah_barang: int)
    | UpdateStok(id: nat, id_produk: nat, jumlah_barang: int)
    | DeleteStok(id: nat)

  /** Register and login are the only endpoints without the token check. */
  predicate IsPublic(req: Request) {
    req.Register? || req.Login?
  }

  datatype TableName = TblUser | TblKategori | TblProduk | TblStok

  /** The one table a request may write, if any. */
  function Writes(req: Request): Option<TableName> {
    match req
    case Register(_, _, _) => Some(TblUser)
    case CreateKategori(_) => Some(TblKategori)
    case UpdateKategori(_, _) => Some(TblKategori)
    case DeleteKategori(_) => Some(TblKategori)
    case CreateProduk(_, _) => Some(TblProduk)
    case UpdateProduk(_, _, _) => Some(TblProduk)
    case DeleteProduk(_) => Some(TblProduk)
    case CreateStok(_, _) => Some(TblStok)
    case UpdateStok(_, _, _) => Some(TblStok)
    case DeleteStok(_) => Some(TblStok)
    case _ => None
  }

  /** The photo handed to a product handler (`req.file.filename`). */
  function Photo(received: Received): Option<string>
    requires received.NoFile? || received.Stored?
  {
    if received.Stored? then Some(received.filename) else None
  }

  /** The product handler a create or update reaches, with `req.file.filename`
      or no file. */
  function ProdukHandler(db: Db, env: Env, req: Request, file: Option<string>): Handled<Db>
    requires req.CreateProduk? || req.UpdateProduk?
  {
    var h :=
      if req.CreateProduk? then Produk.Create(db.produks, req.fields, file, env.today, env.origin)
      else Produk.Update(db.produks, req.id, req.fields, file, env.origin);
    Handled(db.(produks := h.state), h.response)
  }

  /** A product create or update: the upload middleware first and then, if
      it let the request through, the handler. A refused or over-size file
      goes to the error handler `errors` names, the handler never runs and
      nothing changes. The filter raises a plain `Error`, the size limit a
      `MulterError`. */
  function ProdukWrite(errors: ErrorPolicy, db: Db, env: Env, req: Request): (r: Handled<Db>)
    requires req.CreateProduk? || req.UpdateProduk?
    ensures r.state.users == db.users && r.state.kategoris == db.kategoris && r.state.stoks == db.stoks
    ensures Receive(req.photo, env.now, env.rand).Refused? ==> r == Handled(db, Response(400, Message(FilterMessage)))
    ensures Receive(req.photo, env.now, env.rand).TooLarge? ==>
      r == Handled(db, if errors.AsWritten? then Response(500, Message(ServerErrorMessage))
                       else Response(400, Message(SizeLimitMessage)))
    ensures Receive(req.photo, env.now, env.rand).NoFile? ==> r == ProdukHandler(db, env, req, None)
    ensures Receive(req.photo, env.now, env.rand).Stored? ==>
      r == ProdukHandler(db, env, req, Some(Filename(env.now, env.rand, req.photo.value.originalname)))
  {
    var received := Receive(req.photo, env.now, env.rand);
    if received.Refused? then
      FilterErrorIsBadRequest();
      Handled(db, HandleError(errors, Failure(received.message, false)))
    else if received.TooLarge? then
      SizeLimitIsServerError();
      Handled(db, HandleError(errors, Failure(SizeLimitMessage, true)))
    else ProdukHandler(db, env, req, Photo(received))
  }

  /** The program as written and as corrected reach the same tables, and
      answer alike except for an over-size photo. */
  lemma ProdukWritePoliciesAgree(db: Db, env: Env, req: Request)
    requires req.CreateProduk? || req.UpdateProduk?
    ensures ProdukWrite(AsWritten, db, env, req).state == ProdukWrite(Intended, db, env, req).state
    ensures ProdukWrite(AsWritten, db, env, req) != ProdukWrite(Intended, db, env, req) <==>
      Receive(req.photo, env.now, env.rand).TooLarge?
  {
  }

  /** Every product row has a photo, and its name is one the upload
      middleware generated. */
  predicate PhotosGenerated(produks: Table<ProdukRow>) {
    forall id | id in produks.rows ::
      produks.rows[id].foto_produk.Some? && IsGeneratedName(produks.rows[id].foto_produk.value)
  }

  /** What every reachable database satisfies. */
  predicate Invariant(db: Db) {
    Auth.UniqueEmails(db.users) && PhotosGenerated(db.produks)
  }

  /** The routers, one per resource: each only writes its own table. */
  function AuthRoute(db: Db, env: Env, req: Request): (r: Handled<Db>)
    requires req.Register? || req.Login? || req.Logout?
    ensures r.state.kategoris == db.kategoris && r.state.produks == db.produks && r.state.stoks == db.stoks
    ensures !req.Register? ==> r.state == db
  {
    match req
    case Register(nama_user, email, password) =>
      var h := Auth.Register(db.users, nama_user, email, password, env.hash);
      Handled(db.(users := h.state), h.response)
    case Login(email, password) =>
      Handled(db, Auth.Login(db.users, email, password, env.verify, env.sign))
    case Logout =>
      Handled(db, Auth.Logout())
  }

  function KategoriRoute(db: Db, req: Request): (r: Handled<Db>)
    requires req.ListKategori? || req.GetKategori? || req.CreateKategori? || req.UpdateKategori? || req.DeleteKategori?
    ensures r.state.users == db.users && r.state.produks == db.produks && r.state.stoks == db.stoks
    ensures req.ListKategori? || req.GetKategori? ==> r.state == db
  {
    match req
    case ListKategori =>
      Handled(db, Kategori.List(db.kategoris))
    case GetKategori(id) =>
      Handled(db, Kategori.Get(db.kategoris, id))
    case CreateKategori(nama_kategori) =>
      var h := Kategori.Create(db.kategoris, nama_kategori);
      Handled(db.(kategoris := h.state), h.response)
    case UpdateKategori(id, nama_kategori) =>
      var h := Kategori.Update(db.kategoris, id, nama_kategori);
      Handled(db.(kategoris := h.state), h.response)
    case DeleteKategori(id) =>
      var h := Kategori.Delete(db.kategoris, id);
      Handled(db.(kategoris := h.state), h.response)
  }

  function ProdukRoute(errors: ErrorPolicy, db: Db, env: Env, req: Request): (r: Handled<Db>)
    requires req.ListProduk? || req.GetProduk? || req.CreateProduk? || req.UpdateProduk? || req.DeleteProduk?
    ensures r.state.users == db.users && r.state.kategoris == db.kategoris && r.state.stoks == db.stoks
    ensures req.ListProduk? || req.GetProduk? ==> r.state == db
  {
    match req
    case ListProduk =>
      Handled(db, Produk.List(db.produks, db.kategoris, env.origin))
    case GetProduk(id) =>
      Handled(db, Produk.Get(db.produks, db.kategoris, env.origin, id))
    case CreateProduk(_, _) =>
      ProdukWrite(errors, db, env, req)
    case UpdateProduk(_, _, _) =>
      ProdukWrite(errors, db, env, req)
    case DeleteProduk(id) =>
      var h := Produk.Delete(db.produks, id);
      Handled(db.(produks := h.state), h.response)
  }

  function StokRoute(db: Db, env: Env, req: Request): (r: Handled<Db>)
    requires req.ListStok? || req.GetStok? || req.CreateStok? || req.UpdateStok? || req.DeleteStok?
    ensures r.state.users == db.users && r.state.kategoris == db.kategoris && r.state.produks == db.produks
    ensures req.ListStok? || req.GetStok? ==> r.state == db
  {
    match req
    case ListStok =>
      Handled(db, Stok.List(db.stoks, db.produks))
    case GetStok(id) =>
      Handled(db, Stok.Get(db.stoks, db.produks, id))
    case CreateStok(id_produk, jumlah_barang) =>
      var h := Stok.Create(db.stoks, id_produk, jumlah_barang, env.today);
      Handled(db.(stoks := h.state), h.response)
    case UpdateStok(id, id_produk, jumlah_barang) =>
      var h := Stok.Update(db.stoks, id, id_produk, jumlah_barang, env.today);
      Handled(db.(stoks := h.state), h.response)
    case DeleteStok(id) =>
      var h := Stok.Delete(db.stoks, id);
      Handled(db.(stoks := h.state), h.response)
  }

  /** One request: routing, middleware and handler. A request only writes the
      table of its own resource, and reads write nothing. */
  function Dispatch(errors: ErrorPolicy, db: Db, env: Env, req: Request, authenticated: bool): (r: Handled<Db>)
    requires IsPublic(req) || authenticated
    ensures Writes(req) != Some(TblUser) ==> r.state.users == db.users
    ensures Writes(req) != Some(TblKategori) ==> r.state.kategoris == db.kategoris
    ensures Writes(req) != Some(TblProduk) ==> r.state.produks == db.produks
    ensures Writes(req) != Some(TblStok) ==> r.state.stoks == db.stoks
    ensures Writes(req).None? ==> r.state == db
  {
    if req.Register? || req.Login? || req.Logout? then AuthRoute(db, env, req)
    else if req.ListKategori? || req.GetKategori? || req.CreateKategori? || req.UpdateKategori? || req.DeleteKategori? then
      KategoriRoute(db, req)
    else if req.ListProduk? || req.GetProduk? || req.CreateProduk? || req.UpdateProduk? || req.DeleteProduk? then
      ProdukRoute(errors, db, env, req)
    else StokRoute(db, env, req)
  }

  /** Product creates and updates go through the upload middleware. */
  lemma DispatchProdukWrite(errors: ErrorPolicy, db: Db, env: Env, req: Request)
    requires req.CreateProduk? || req.UpdateProduk?
    ensures Dispatch(errors, db, env, req, true) == ProdukWrite(errors, db, env, req)
  {
    assert Dispatch(errors, db, env, req, true) == ProdukRoute(errors, db, env, req);
  }

  /** A photo the filter refuses: 400 with the filter's message, and no
      table changes. */
  lemma RefusedPhotoChangesNothing(errors: ErrorPolicy, db: Db, env: Env, req: Request)
    requires req.CreateProduk? || req.UpdateProduk?
    requires req.photo.Some?
    requires req.photo.value.originalname != ""
    requires FileFilter(req.photo.value.originalname, req.photo.value.mimetype).Reject?
    ensures Dispatch(errors, db, env, req, true) == Handled(db, Response(400, Message(FilterMessage)))
  {
    DispatchProdukWrite(errors, db, env, req);
  }

  /** An accepted photo over 5 MiB, as written: multer's error reaches the
      catch-all branch, so the answer is 500 and no table changes. */
  lemma OversizePhotoServerError(db: Db, env: Env, req: Request)
    requires req.CreateProduk? || req.UpdateProduk?
    requires req.photo.Some?
    requires FileFilter(req.photo.value.originalname, req.photo.value.mimetype).Accept?
    requires req.photo.value.size > MaxFileSize
    ensures Dispatch(AsWritten, db, env, req, true) == Handled(db, Response(500, Message(ServerErrorMessage)))
  {
    AcceptedFileIsNamed(req.photo.value.originalname, req.photo.value.mimetype);
    DispatchProdukWrite(AsWritten, db, env, req);
  }

  /** The same photo under the corrected error handler: 400 with multer's
      message, and no table changes. */
  lemma OversizePhotoRejected(db: Db, env: Env, req: Request)
    requires req.CreateProduk? || req.UpdateProduk?
    requires req.photo.Some?
    requires FileFilter(req.photo.value.originalname, req.photo.value.mimetype).Accept?
    requires req.photo.value.size > MaxFileSize
    ensures Dispatch(Intended, db, env, req, true) == Handled(db, Response(400, Message(SizeLimitMessage)))
  {
    AcceptedFileIsNamed(req.photo.value.originalname, req.photo.value.mimetype);
    DispatchProdukWrite(Intended, db, env, req);
  }

  /** A photo the upload middleware stores under a generated name. */
  predicate StoresPhoto(photo: Option<IncomingFile>) {
    photo.Some? && photo.value.originalname != "" &&
    FileFilter(photo.value.originalname, photo.value.mimetype).Accept? && photo.value.size <= MaxFileSize
  }

  lemma CreateWritesPhoto(errors: ErrorPolicy, db: Db, env: Env, req: Request)
    requires req.CreateProduk? && StoresPhoto(req.photo)
    ensures var r := ProdukWrite(errors, db, env, req);
      r.response.status == 201 && r.response.body.ProdukCreated? &&
      r.response.body.id_produk !in db.produks.rows &&
      r.state.produks.rows == db.produks.rows[r.response.body.id_produk :=
        ProdukRow(req.fields.id_kategori, req.fields.nama_produk, req.fields.kode_produk,
                  Some(Filename(env.now, env.rand, req.photo.value.originalname)), env.today)]
  {
    assert Receive(req.photo, env.now, env.rand).Stored?;
    var name := Filename(env.now, env.rand, req.photo.value.originalname);
    var c := Produk.Create(db.produks, req.fields, Some(name), env.today, env.origin);
    assert ProdukHandler(db, env, req, Some(name)) == Handled(db.(produks := c.state), c.response);
  }

  lemma UpdateWritesPhoto(errors: ErrorPolicy, db: Db, env: Env, req: Request)
    requires req.UpdateProduk? && req.id in db.produks.rows && StoresPhoto(req.photo)
    ensures var r := ProdukWrite(errors, db, env, req);
      r.response.status == 200 && req.id in r.state.produks.rows &&
      r.state.produks.rows[req.id].foto_produk == Some(Filename(env.now, env.rand, req.photo.value.originalname))
  {
    assert Receive(req.photo, env.now, env.rand).Stored?;
    var name := Filename(env.now, env.rand, req.photo.value.originalname);
    var u := Produk.Update(db.produks, req.id, req.fields, Some(name), env.origin);
    assert ProdukHandler(db, env, req, Some(name)) == Handled(db.(produks := u.state), u.response);
  }

  /** A photo the filter accepts, within the limit: the create is answered
      201 and the new row holds the generated name, under either error
      handler. */
  lemma AcceptedPhotoCreated(errors: ErrorPolicy, db: Db, env: Env, fields: Produk.Fields, f: IncomingFile)
    requires f.originalname != ""
    requires FileFilter(f.originalname, f.mimetype).Accept?
    requires f.size <= MaxFileSize
    ensures var r := Dispatch(errors, db, env, CreateProduk(fields, Some(f)), true);
      r.response.status == 201 && r.response.body.ProdukCreated? &&
      r.response.body.id_produk !in db.produks.rows &&
      r.state.produks.rows == db.produks.rows[r.response.body.id_produk :=
        ProdukRow(fields.id_kategori, fields.nama_produk, fields.kode_produk,
                  Some(Filename(env.now, env.rand, f.originalname)), env.today)]
  {
    var req := CreateProduk(fields, Some(f));
    DispatchProdukWrite(errors, db, env, req);
    CreateWritesPhoto(errors, db, env, req);
  }

  /** The same photo on an update of an existing product: answered 200, and
      the row's photo is replaced by the generated name. */
  lemma AcceptedPhotoUpdated(errors: ErrorPolicy, db: Db, env: Env, id: nat, fields: Produk.Fields, f: IncomingFile)
    requires id in db.produks.rows
    requires f.originalname != ""
    requires FileFilter(f.originalname, f.mimetype).Accept?
    requires f.size <= MaxFileSize
    ensures var r := Dispatch(errors, db, env, UpdateProduk(id, fields, Some(f)), true);
      r.response.status == 200 && id in r.state.produks.rows &&
      r.state.produks.rows[id].foto_produk == Some(Filename(env.now, env.rand, f.originalname))
  {
    var req := UpdateProduk(id, fields, Some(f));
    DispatchProdukWrite(errors, db, env, req);
    UpdateWritesPhoto(errors, db, env, req);
  }

  /** An empty file input is no photo: a create is answered 400 "Foto produk
      wajib diupload" and no table changes. */
  lemma EmptyFileInputIsNoPhoto(errors: ErrorPolicy, db: Db, env: Env, req: Request)
    requires req.CreateProduk? && req.photo.Some? && req.photo.value.originalname == ""
    ensures Dispatch(errors, db, env, req, true) == Handled(db, Response(400, Message(Produk.PhotoRequiredMessage)))
  {
    DispatchProdukWrite(errors, db, env, req);
  }

  /** A product created with a generated photo name keeps every stored
      photo name a generated one. */
  lemma CreateKeepsPhotos(t: Table<ProdukRow>, fields: Produk.Fields, filename: string,
                          today: string, origin: Origin)
    requires PhotosGenerated(t) && IsGeneratedName(filename)
    ensures PhotosGenerated(Produk.Create(t, fields, Some(filename), today, origin).state)
  {
    var c := Produk.Create(t, fields, Some(filename), today, origin);
    forall id | id in c.state.rows
      ensures c.state.rows[id].foto_produk.Some? && IsGeneratedName(c.state.rows[id].foto_produk.value)
    {
      if id != c.response.body.id_produk {
        assert c.state.rows[id] == t.rows[id];
      }
    }
  }

  /** An update without a photo, or with a generated photo name, keeps every
      stored photo name a generated one. */
  lemma UpdateKeepsPhotos(t: Table<ProdukRow>, id: nat, fields: Produk.Fields, file: Option<string>,
                          origin: Origin)
    requires PhotosGenerated(t)
    requires file.Some? ==> IsGeneratedName(file.value)
    ensures PhotosGenerated(Produk.Update(t, id, fields, file, origin).state)
  {
    var u := Produk.Update(t, id, fields, file, origin);
    forall k | k in u.state.rows
      ensures u.state.rows[k].foto_produk.Some? && IsGeneratedName(u.state.rows[k].foto_produk.value)
    {
      if k != id {
        assert u.state.rows[k] == t.rows[k];
      }
    }
  }

  /** A product create or update keeps every stored photo name a generated
      one: a stored photo has a generated name, and no other branch writes. */
  lemma ProdukWriteKeepsPhotos(errors: ErrorPolicy, db: Db, env: Env, req: Request)
    requires req.CreateProduk? || req.UpdateProduk?
    requires PhotosGenerated(db.produks)
    ensures PhotosGenerated(ProdukWrite(errors, db, env, req).state.produks)
  {
    var received := Receive(req.photo, env.now, env.rand);
    if received.NoFile? || received.Stored? {
      if req.CreateProduk? {
        if received.Stored? {
          CreateKeepsPhotos(db.produks, req.fields, received.filename, env.today, env.origin);
        }
      } else {
        UpdateKeepsPhotos(db.produks, req.id, req.fields, Photo(received), env.origin);
      }
    }
  }

  /** Product writes keep every stored photo name a generated one. */
  lemma ProdukRouteKeepsPhotos(errors: ErrorPolicy, db: Db, env: Env, req: Request)
    requires req.CreateProduk? || req.UpdateProduk? || req.DeleteProduk?
    requires PhotosGenerated(db.produks)
    ensures PhotosGenerated(ProdukRoute(errors, db, env, req).state.produks)
  {
    if !req.DeleteProduk? {
      assert ProdukRoute(errors, db, env, req) == ProdukWrite(errors, db, env, req);
      ProdukWriteKeepsPhotos(errors, db, env, req);
    }
  }

  /** Each request keeps the invariant. */
  lemma DispatchKeepsInvariant(errors: ErrorPolicy, db: Db, env: Env, req: Request, authenticated: bool)
    requires IsPublic(req) || authenticated
    requires Invariant(db)
    ensures Invariant(Dispatch(errors, db, env, req, authenticated).state)
  {
    var r := Dispatch(errors, db, env, req, authenticated).state;
    if req.Register? {
      Auth.RegisterPreservesUniqueEmails(db.users, req.nama_user, req.email, req.password, env.hash);
      assert r.users == Auth.Register(db.users, req.nama_user, req.email, req.password, env.hash).state;
    } else if req.CreateProduk? || req.UpdateProduk? || req.DeleteProduk? {
      assert r == ProdukRoute(errors, db, env, req).state;
      ProdukRouteKeepsPhotos(errors, db, env, req);
    }
  }

  /** A call: the request, its surroundings, and whether it carried a valid token. */
  datatype Call = Call(env: Env, req: Request, authenticated: bool)

  predicate Admitted(call: Call) {
    IsPublic(call.req) || call.authenticated
  }

  /** The database after a run of calls, each one past the token check. */
  function Run(errors: ErrorPolicy, db: Db, calls: seq<Call>): (r: Db)
    requires forall i | 0 <= i < |calls| :: Admitted(calls[i])
    ensures calls == [] ==> r == db
    ensures (forall i | 0 <= i < |calls| :: Writes(calls[i].req).None?) ==> r == db
    decreases |calls|
  {
    if calls == [] then db
    else
      assert Admitted(calls[0]);
      Run(errors, Dispatch(errors, db, calls[0].env, calls[0].req, calls[0].authenticated).state, calls[1..])
  }

  lemma {:induction false} RunKeepsInvariant(errors: ErrorPolicy, db: Db, calls: seq<Call>)
    requires forall i | 0 <= i < |calls| :: Admitted(calls[i])
    requires Invariant(db)
    ensures Invariant(Run(errors, db, calls))
    decreases |calls|
  {
    if calls != [] {
      var c := calls[0];
      assert Admitted(c);
      DispatchKeepsInvariant(errors, db, c.env, c.req, c.authenticated);
      RunKeepsInvariant(errors, Dispatch(errors, db, c.env, c.req, c.authenticated).state, calls[1..]);
    }
  }

  lemma EmptyInvariant()
    ensures Invariant(EmptyDb())
  {
    var db := EmptyDb();
    assert db.users.rows == map[] && db.produks.rows == map[];
  }

  /** Starting from empty tables, emails stay unique and every product's
      photo is a generated upload name, whatever the calls. */
  lemma ReachableInvariant(errors: ErrorPolicy, calls: seq<Call>)
    requires forall i | 0 <= i < |calls| :: Admitted(calls[i])
    ensures Invariant(Run(errors, EmptyDb(), calls))
  {
    EmptyInvariant();
    RunKeepsInvariant(errors, EmptyDb(), calls);
  }
}
