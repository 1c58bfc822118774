/**
 * The stock handlers of routes/stok.js over `tbl_stok`. Reads LEFT JOIN the
 * product name and code; writes stamp `tgl_update` with today's date. The
 * handlers check neither the quantity's sign nor that the product exists.
 */
module Stok {
  import opened Options
  import opened Tables
  import opened Schema
  import opened Http

  const NotFoundMessage := "Stok tidak ditemukan"
  const CreatedMessage := "Stok berhasil ditambahkan"
  const UpdatedMessage := "Stok berhasil diupdate"
  const DeletedMessage := "Stok berhasil dihapus"

  type Stoks = Table<StokRow>

  /** `LEFT JOIN tbl_produk p ON s.id_produk = p.id_produk`: the product's
      row when it still exists. */
  function JoinProduk(produks: Table<ProdukRow>, id_produk: nat): (r: Option<ProdukRow>)
    ensures r.Some? <==> id_produk in produks.rows
    ensures r.Some? ==> r.value == produks.rows[id_produk]
  {
    Select(produks, id_produk)
  }

  /** One stock record as the read handlers return it. */
  function View(produks: Table<ProdukRow>, id: nat, row: StokRow): (v: StokView)
    ensures v.id_stok == id && v.id_produk == row.id_produk
    ensures v.jumlah_barang == row.jumlah_barang && v.tgl_update == row.tgl_update
    ensures v.nama_produk.None? <==> row.id_produk !in produks.rows
    ensures v.kode_produk.None? <==> row.id_produk !in produks.rows
    ensures row.id_produk in produks.rows ==>
      v.nama_produk == Some(produks.rows[row.id_produk].nama_produk) &&
      v.kode_produk == Some(produks.rows[row.id_produk].kode_produk)
  {
    var p := JoinProduk(produks, row.id_produk);
    StokView(id, row.id_produk, row.jumlah_barang, row.tgl_update,
             if p.Some? then Some(p.value.nama_produk) else None,
             if p.Some? then Some(p.value.kode_produk) else None)
  }

  /** GET /api/stok: one entry per stock row, including rows whose product is
      gone (their product fields are null). */
  function List(t: Stoks, produks: Table<ProdukRow>): (r: Response)
    ensures r.status == 200 && r.body.StokList?
    ensures |r.body.stoks| == |t.rows|
    ensures forall i | 0 <= i < |r.body.stoks| ::
      r.body.stoks[i].id_stok in t.rows &&
      r.body.stoks[i] == View(produks, r.body.stoks[i].id_stok, t.rows[r.body.stoks[i].id_stok])
    ensures forall id | id in t.rows :: View(produks, id, t.rows[id]) in r.body.stoks
  {
    var s := Scan(t);
    var items := seq(|s|, i requires 0 <= i < |s| => View(produks, s[i].id, s[i].row));
    forall i | 0 <= i < |items| ensures items[i].id_stok == s[i].id {
    }
    ViewsComplete(t, (id, row) => View(produks, id, row), items);
    Response(200, StokList(items))
  }

  /** GET /api/stok/:id: exactly one record, or 404. */
  function Get(t: Stoks, produks: Table<ProdukRow>, id: nat): (r: Response)
    ensures r.status == 404 <==> id !in t.rows
    ensures id !in t.rows ==> r.body == Message(NotFoundMessage)
    ensures id in t.rows ==> r == Response(200, StokItem(View(produks, id, t.rows[id])))
  {
    match Select(t, id)
    case None => Response(404, Message(NotFoundMessage))
    case Some(row) => Response(200, StokItem(View(produks, id, row)))
  }

  /** POST /api/stok: inserts product, quantity and today's date under a fresh
      key and answers 201 with it; any quantity and any product id are taken. */
  function Create(t: Stoks, id_produk: nat, jumlah_barang: int, today: string): (r: Handled<Stoks>)
    ensures r.response.status == 201 && r.response.body.StokCreated?
    ensures r.response.body.message == CreatedMessage
    ensures r.response.body.id_stok !in t.rows
    ensures r.state.rows == t.rows[r.response.body.id_stok := StokRow(id_produk, jumlah_barang, today)]
  {
    var ins := Insert(t, StokRow(id_produk, jumlah_barang, today));
    Handled(ins.table, Response(201, StokCreated(CreatedMessage, ins.id)))
  }

  /** PUT /api/stok/:id: replaces product and quantity and resets the date to
      today, or answers 404 and changes nothing. */
  function Update(t: Stoks, id: nat, id_produk: nat, jumlah_barang: int, today: string): (r: Handled<Stoks>)
    ensures r.response.status == 404 <==> id !in t.rows
    ensures id !in t.rows ==> r.state == t && r.response.body == Message(NotFoundMessage)
    ensures id in t.rows ==> r.response == Response(200, Message(UpdatedMessage))
    ensures id in t.rows ==> r.state.rows == t.rows[id := StokRow(id_produk, jumlah_barang, today)]
  {
    var upd := UpdateById(t, id, (_: StokRow) => StokRow(id_produk, jumlah_barang, today));
    if upd.count == 0 then Handled(upd.table, Response(404, Message(NotFoundMessage)))
    else Handled(upd.table, Response(200, Message(UpdatedMessage)))
  }

  /** DELETE /api/stok/:id: removes that record only, or answers 404. */
  function Delete(t: Stoks, id: nat): (r: Handled<Stoks>)
    ensures r.response.status == 404 <==> id !in t.rows
    ensures id !in t.rows ==> r.state == t && r.response.body == Message(NotFoundMessage)
    ensures id in t.rows ==> r.response == Response(200, Message(DeletedMessage))
    ensures r.state.rows == t.rows - {id}
  {
    var del := DeleteById(t, id);
    if del.count == 0 then Handled(del.table, Response(404, Message(NotFoundMessage)))
    else Handled(del.table, Response(200, Message(DeletedMessage)))
  }

  /** A created record reads back with its fields. */
  lemma CreateThenGet(t: Stoks, produks: Table<ProdukRow>, id_produk: nat, jumlah_barang: int, today: string)
    ensures var c := Create(t, id_produk, jumlah_barang, today);
      var g := Get(c.state, produks, c.response.body.id_stok);
      g.status == 200 && g.body.stok.id_produk == id_produk &&
      g.body.stok.jumlah_barang == jumlah_barang && g.body.stok.tgl_update == today
  {
  }

  /** After a delete, the key reads as 404. */
  lemma DeleteThenGet(t: Stoks, produks: Table<ProdukRow>, id: nat)
    ensures Get(Delete(t, id).state, produks, id) == Response(404, Message(NotFoundMessage))
  {
  }

  /** A record whose product was deleted is still listed, with null product fields. */
  lemma OrphanStillListed(t: Stoks, produks: Table<ProdukRow>, id: nat)
    requires id in t.rows && t.rows[id].id_produk !in produks.rows
    ensures var listed := List(t, produks).body.stoks;
      exists i :: 0 <= i < |listed| && listed[i].id_stok == id &&
        listed[i].nama_produk.None? && listed[i].kode_produk.None?
  {
    var listed := List(t, produks).body.stoks;
    var i :| 0 <= i < |listed| && listed[i] == View(produks, id, t.rows[id]);
  }
}
