/**
 * The category handlers of routes/kategori.js: list, get, create, update
 * and delete over `tbl_kategori`, each one SQL statement.
 */
module Kategori {
  import opened Options
  import opened Tables
  import opened Schema
  import opened Http

  const NotFoundMessage := "Kategori tidak ditemukan"
  const CreatedMessage := "Kategori berhasil ditambahkan"
  const UpdatedMessage := "Kategori berhasil diupdate"
  const DeletedMessage := "Kategori berhasil dihapus"

  type Kategoris = Table<KategoriRow>

  /** One category as the read handlers return it: its key and its name. */
  function View(id: nat, row: KategoriRow): (v: KategoriView)
    ensures v.id_kategori == id && v.nama_kategori == row.nama_kategori
  {
    KategoriView(id, row.nama_kategori)
  }

  /** GET /api/kategori: exactly the rows of the table, each once. */
  function List(t: Kategoris): (r: Response)
    ensures r.status == 200 && r.body.KategoriList?
    ensures |r.body.kategoris| == |t.rows|
    ensures forall i | 0 <= i < |r.body.kategoris| ::
      var k := r.body.kategoris[i];
      k.id_kategori in t.rows && t.rows[k.id_kategori].nama_kategori == k.nama_kategori
    ensures forall id | id in t.rows :: View(id, t.rows[id]) in r.body.kategoris
  {
    var s := Scan(t);
    var items := seq(|s|, i requires 0 <= i < |s| => View(s[i].id, s[i].row));
    forall i | 0 <= i < |items| ensures items[i].id_kategori == s[i].id {
    }
    ViewsComplete(t, View, items);
    Response(200, KategoriList(items))
  }

  /** GET /api/kategori/:id: the row, or 404 when no row has that key. */
  function Get(t: Kategoris, id: nat): (r: Response)
    ensures r.status == 404 <==> id !in t.rows
    ensures id !in t.rows ==> r.body == Message(NotFoundMessage)
    ensures id in t.rows ==> r == Response(200, KategoriItem(KategoriView(id, t.rows[id].nama_kategori)))
  {
    match Select(t, id)
    case None => Response(404, Message(NotFoundMessage))
    case Some(row) => Response(200, KategoriItem(View(id, row)))
  }

  /** POST /api/kategori: inserts the name under a fresh key and answers 201
      with that key; no other row changes. */
  function Create(t: Kategoris, nama_kategori: string): (r: Handled<Kategoris>)
    ensures r.response.status == 201 && r.response.body.KategoriCreated?
    ensures r.response.body.message == CreatedMessage
    ensures r.response.body.id_kategori !in t.rows
    ensures r.state.rows == t.rows[r.response.body.id_kategori := KategoriRow(nama_kategori)]
  {
    var ins := Insert(t, KategoriRow(nama_kategori));
    Handled(ins.table, Response(201, KategoriCreated(CreatedMessage, ins.id)))
  }

  /** PUT /api/kategori/:id: replaces the name of an existing row, or answers
      404 and changes nothing. */
  function Update(t: Kategoris, id: nat, nama_kategori: string): (r: Handled<Kategoris>)
    ensures r.response.status == 404 <==> id !in t.rows
    ensures id !in t.rows ==> r.state == t && r.response.body == Message(NotFoundMessage)
    ensures id in t.rows ==> r.response == Response(200, Message(UpdatedMessage))
    ensures id in t.rows ==> r.state.rows == t.rows[id := KategoriRow(nama_kategori)]
  {
    var upd := UpdateById(t, id, (_: KategoriRow) => KategoriRow(nama_kategori));
    if upd.count == 0 then Handled(upd.table, Response(404, Message(NotFoundMessage)))
    else Handled(upd.table, Response(200, Message(UpdatedMessage)))
  }

  /** DELETE /api/kategori/:id: removes that row only, or answers 404. Products
      that refer to the category are not touched. */
  function Delete(t: Kategoris, id: nat): (r: Handled<Kategoris>)
    ensures r.response.status == 404 <==> id !in t.rows
    ensures id !in t.rows ==> r.state == t && r.response.body == Message(NotFoundMessage)
    ensures id in t.rows ==> r.response == Response(200, Message(DeletedMessage))
    ensures r.state.rows == t.rows - {id}
  {
    var del := DeleteById(t, id);
    if del.count == 0 then Handled(del.table, Response(404, Message(NotFoundMessage)))
    else Handled(del.table, Response(200, Message(DeletedMessage)))
  }

  /** A created category reads back under the key the response reports. */
  lemma CreateThenGet(t: Kategoris, nama_kategori: string)
    ensures var c := Create(t, nama_kategori);
      Get(c.state, c.response.body.id_kategori) ==
        Response(200, KategoriItem(KategoriView(c.response.body.id_kategori, nama_kategori)))
  {
  }

  /** After a delete, the key reads as 404, whether or not it existed. */
  lemma DeleteThenGet(t: Kategoris, id: nat)
    ensures Get(Delete(t, id).state, id) == Response(404, Message(NotFoundMessage))
  {
  }

  /** An update of an existing key reads back the new name. */
  lemma UpdateThenGet(t: Kategoris, id: nat, nama_kategori: string)
    requires id in t.rows
    ensures Get(Update(t, id, nama_kategori).state, id) ==
      Response(200, KategoriItem(KategoriView(id, nama_kategori)))
  {
  }
}
