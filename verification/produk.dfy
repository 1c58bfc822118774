/**
 * The product handlers of routes/produk.js over `tbl_produk`, with the
 * photo URL each response carries. The category name comes from a LEFT
 * JOIN on `tbl_kategori`; the photo file name comes from the upload
 * middleware (`req.file.filename`), never from the client.
 */
module Produk {
  import opened Options
  import opened Strings
  import opened Tables
  import opened Schema
  import opened Http

  const NotFoundMessage := "Produk tidak ditemukan"
  const PhotoRequiredMessage := "Foto produk wajib diupload"
  const CreatedMessage := "Produk berhasil ditambahkan"
  const UpdatedMessage := "Produk berhasil diupdate"
  const DeletedMessage := "Produk berhasil dihapus"

  type Produks = Table<ProdukRow>

  /** The fields of the multipart body (`req.body`). */
  datatype Fields = Fields(id_kategori: Option<nat>, nama_produk: string, kode_produk: string)

  /** Where uploaded photos are served: "<protocol>://<host>/uploads/". */
  function UploadsBase(origin: Origin): string {
    origin.protocol + "://" + origin.host + "/uploads/"
  }

  /** `generateFotoUrl`: no URL for a missing or empty (falsy) file name,
      otherwise the file's address under the uploads directory. */
  function FotoUrl(origin: Origin, filename: Option<string>): (r: Option<string>)
    ensures r.None? <==> filename.None? || filename.value == ""
    ensures r.Some? ==> IsPrefix(UploadsBase(origin), r.value)
    ensures r.Some? ==> |r.value| == |UploadsBase(origin)| + |filename.value|
    ensures r.Some? ==> r.value[|UploadsBase(origin)|..] == filename.value
  {
    match filename
    case None => None
    case Some(f) =>
      if f == "" then None
      else
        var url := UploadsBase(origin) + f;
        assert url[..|UploadsBase(origin)|] == UploadsBase(origin);
        Some(url)
  }

  /** Reads the file name back out of a photo URL. */
  function FilenameOf(origin: Origin, url: string): Option<string> {
    if IsPrefix(UploadsBase(origin), url) then Some(url[|UploadsBase(origin)|..]) else None
  }

  /** The URL determines the file name: reading it back gives the name it was made from. */
  lemma FotoUrlRoundTrip(origin: Origin, filename: string)
    requires filename != ""
    ensures FotoUrl(origin, Some(filename)).Some?
    ensures FilenameOf(origin, FotoUrl(origin, Some(filename)).value) == Some(filename)
  {
  }

  /** Different photos never share a URL. */
  lemma FotoUrlInjective(origin: Origin, a: string, b: string)
    requires a != "" && b != ""
    requires FotoUrl(origin, Some(a)) == FotoUrl(origin, Some(b))
    ensures a == b
  {
    FotoUrlRoundTrip(origin, a);
    FotoUrlRoundTrip(origin, b);
  }

  /** `LEFT JOIN tbl_kategori k ON p.id_kategori = k.id_kategori`: the category
      name, or NULL when the reference is NULL or names no category. */
  function JoinKategori(kategoris: Table<KategoriRow>, id_kategori: Option<nat>): (r: Option<string>)
    ensures r.Some? <==> id_kategori.Some? && id_kategori.value in kategoris.rows
    ensures r.Some? ==> r.value == kategoris.rows[id_kategori.value].nama_kategori
  {
    match id_kategori
    case None => None
    case Some(k) => if k in kategoris.rows then Some(kategoris.rows[k].nama_kategori) else None
  }

  /** One product as the read handlers return it: the row, the joined
      category name and the photo URL derived from the row's own file name. */
  function View(origin: Origin, kategoris: Table<KategoriRow>, id: nat, row: ProdukRow): (v: ProdukView)
    ensures v.id_produk == id && v.id_kategori == row.id_kategori
    ensures v.nama_produk == row.nama_produk && v.kode_produk == row.kode_produk
    ensures v.foto_produk == row.foto_produk && v.tgl_register == row.tgl_register
    ensures v.foto_url == FotoUrl(origin, row.foto_produk)
    ensures v.nama_kategori == JoinKategori(kategoris, row.id_kategori)
  {
    ProdukView(id, row.id_kategori, row.nama_produk, row.kode_produk, row.foto_produk, row.tgl_register,
               JoinKategori(kategoris, row.id_kategori), FotoUrl(origin, row.foto_produk))
  }

  /** GET /api/produk: one entry per product, whether or not its category
      exists, each with the URL of its own photo. */
  function List(t: Produks, kategoris: Table<KategoriRow>, origin: Origin): (r: Response)
    ensures r.status == 200 && r.body.ProdukList?
    ensures |r.body.produks| == |t.rows|
    ensures forall i | 0 <= i < |r.body.produks| ::
      r.body.produks[i].id_produk in t.rows &&
      r.body.produks[i] == View(origin, kategoris, r.body.produks[i].id_produk, t.rows[r.body.produks[i].id_produk])
    ensures forall id | id in t.rows :: View(origin, kategoris, id, t.rows[id]) in r.body.produks
  {
    var s := Scan(t);
    var items := seq(|s|, i requires 0 <= i < |s| => View(origin, kategoris, s[i].id, s[i].row));
    forall i | 0 <= i < |items| ensures items[i].id_produk == s[i].id {
    }
    ViewsComplete(t, (id, row) => View(origin, kategoris, id, row), items);
    Response(200, ProdukList(items))
  }

  /** GET /api/produk/:id: the product with its URL, or 404. */
  function Get(t: Produks, kategoris: Table<KategoriRow>, origin: Origin, id: nat): (r: Response)
    ensures r.status == 404 <==> id !in t.rows
    ensures id !in t.rows ==> r.body == Message(NotFoundMessage)
    ensures id in t.rows ==> r == Response(200, ProdukItem(View(origin, kategoris, id, t.rows[id])))
  {
    match Select(t, id)
    case None => Response(404, Message(NotFoundMessage))
    case Some(row) => Response(200, ProdukItem(View(origin, kategoris, id, row)))
  }

  /** A product read alone is the same as its entry in the list. */
  lemma GetAgreesWithList(t: Produks, kategoris: Table<KategoriRow>, origin: Origin, id: nat)
    requires id in t.rows
    ensures var listed := List(t, kategoris, origin).body.produks;
      exists i :: 0 <= i < |listed| && listed[i] == Get(t, kategoris, origin, id).body.produk
  {
    var listed := List(t, kategoris, origin).body.produks;
    var i :| 0 <= i < |listed| && listed[i] == View(origin, kategoris, id, t.rows[id]);
  }

  /** POST /api/produk: without an uploaded photo answers 400 and inserts
      nothing; with one, inserts the fields, the stored file name and today's
      date under a fresh key and answers 201 with that key and the photo URL. */
  function Create(t: Produks, fields: Fields, file: Option<string>, today: string, origin: Origin)
    : (r: Handled<Produks>)
    ensures r.response.status == 400 <==> file.None?
    ensures file.None? ==> r.state == t && r.response.body == Message(PhotoRequiredMessage)
    ensures file.Some? ==> r.response.status == 201 && r.response.body.ProdukCreated?
    ensures file.Some? ==> r.response.body.message == CreatedMessage
    ensures file.Some? ==> r.response.body.id_produk !in t.rows
    ensures file.Some? ==> r.state.rows == t.rows[r.response.body.id_produk :=
      ProdukRow(fields.id_kategori, fields.nama_produk, fields.kode_produk, file, today)]
    ensures file.Some? ==> r.response.body.foto_url == FotoUrl(origin, file)
  {
    match file
    case None => Handled(t, Response(400, Message(PhotoRequiredMessage)))
    case Some(filename) =>
      var row := ProdukRow(fields.id_kategori, fields.nama_produk, fields.kode_produk, Some(filename), today);
      var ins := Insert(t, row);
      Handled(ins.table, Response(201, ProdukCreated(CreatedMessage, ins.id, FotoUrl(origin, file))))
  }

  /** The row an update writes: the three body fields always, the photo only
      when a new one was uploaded; the registration date never. */
  function Updated(row: ProdukRow, fields: Fields, file: Option<string>): (r: ProdukRow)
    ensures r.id_kategori == fields.id_kategori
    ensures r.nama_produk == fields.nama_produk && r.kode_produk == fields.kode_produk
    ensures r.tgl_register == row.tgl_register
    ensures r.foto_produk == (if file.Some? then file else row.foto_produk)
  {
    var r := row.(id_kategori := fields.id_kategori, nama_produk := fields.nama_produk,
                  kode_produk := fields.kode_produk);
    if file.Some? then r.(foto_produk := file) else r
  }

  /** PUT /api/produk/:id: rewrites an existing row as `Updated` says and
      answers with the new photo's URL (null without a new photo); answers
      404 and changes nothing when no row has the key. */
  function Update(t: Produks, id: nat, fields: Fields, file: Option<string>, origin: Origin)
    : (r: Handled<Produks>)
    ensures r.response.status == 404 <==> id !in t.rows
    ensures id !in t.rows ==> r.state == t && r.response.body == Message(NotFoundMessage)
    ensures id in t.rows ==> r.state.rows == t.rows[id := Updated(t.rows[id], fields, file)]
    ensures id in t.rows ==> r.response == Response(200, ProdukUpdated(UpdatedMessage,
      if file.Some? then FotoUrl(origin, file) else None))
  {
    var upd := UpdateById(t, id, (row: ProdukRow) => Updated(row, fields, file));
    if upd.count == 0 then Handled(upd.table, Response(404, Message(NotFoundMessage)))
    else Handled(upd.table, Response(200, ProdukUpdated(UpdatedMessage, if file.Some? then FotoUrl(origin, file) else None)))
  }

  /** DELETE /api/produk/:id: removes that row only, or answers 404. */
  function Delete(t: Produks, id: nat): (r: Handled<Produks>)
    ensures r.response.status == 404 <==> id !in t.rows
    ensures id !in t.rows ==> r.state == t && r.response.body == Message(NotFoundMessage)
    ensures id in t.rows ==> r.response == Response(200, Message(DeletedMessage))
    ensures r.state.rows == t.rows - {id}
  {
    var del := DeleteById(t, id);
    if del.count == 0 then Handled(del.table, Response(404, Message(NotFoundMessage)))
    else Handled(del.table, Response(200, Message(DeletedMessage)))
  }

  /** A created product reads back with its fields, its photo and the same URL
      the create response gave. */
  lemma CreateThenGet(t: Produks, kategoris: Table<KategoriRow>, fields: Fields, filename: string,
                      today: string, origin: Origin)
    ensures var c := Create(t, fields, Some(filename), today, origin);
      var g := Get(c.state, kategoris, origin, c.response.body.id_produk);
      g.status == 200 &&
      g.body.produk.nama_produk == fields.nama_produk &&
      g.body.produk.kode_produk == fields.kode_produk &&
      g.body.produk.id_kategori == fields.id_kategori &&
      g.body.produk.foto_produk == Some(filename) &&
      g.body.produk.tgl_register == today &&
      g.body.produk.foto_url == c.response.body.foto_url
  {
  }

  /** An update without a photo keeps the stored photo and its URL. */
  lemma UpdateWithoutPhotoKeepsPhoto(t: Produks, kategoris: Table<KategoriRow>, id: nat, fields: Fields,
                                     origin: Origin)
    requires id in t.rows
    ensures var g := Get(Update(t, id, fields, None, origin).state, kategoris, origin, id);
      g.body.produk.foto_produk == t.rows[id].foto_produk &&
      g.body.produk.foto_url == FotoUrl(origin, t.rows[id].foto_produk) &&
      g.body.produk.tgl_register == t.rows[id].tgl_register
  {
  }

  /** An update with a photo makes the product's URL the one the update returned. */
  lemma UpdateWithPhotoReplacesPhoto(t: Produks, kategoris: Table<KategoriRow>, id: nat, fields: Fields,
                                     filename: string, origin: Origin)
    requires id in t.rows
    ensures var u := Update(t, id, fields, Some(filename), origin);
      var g := Get(u.state, kategoris, origin, id);
      g.body.produk.foto_produk == Some(filename) &&
      g.body.produk.foto_url == u.response.body.foto_url
  {
  }

  /** After a delete, the key reads as 404. */
  lemma DeleteThenGet(t: Produks, kategoris: Table<KategoriRow>, origin: Origin, id: nat)
    ensures Get(Delete(t, id).state, kategoris, origin, id) == Response(404, Message(NotFoundMessage))
  {
  }
}
