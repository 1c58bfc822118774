/**
 * The four tables the API works on and the JSON objects its read handlers
 * return. Field names are the column and JSON key names of the API.
 */
module Schema {
  import opened Options

  /** A row of `tbl_kategori` (key `id_kategori`). */
  datatype KategoriRow = KategoriRow(nama_kategori: string)

  /** A row of `tbl_produk` (key `id_produk`). The category reference may be
      NULL and is not checked against `tbl_kategori`; `foto_produk` is the
      stored file name, NULL for a row that never had one. */
  datatype ProdukRow = ProdukRow(
    id_kategori: Option<nat>,
    nama_produk: string,
    kode_produk: string,
    foto_produk: Option<string>,
    tgl_register: string)

  /** A row of `tbl_stok` (key `id_stok`). The quantity is not checked for sign
      and the product reference is not checked against `tbl_produk`. */
  datatype StokRow = StokRow(id_produk: nat, jumlah_barang: int, tgl_update: string)

  /** A row of `tbl_user` (key `id_user`); `password` holds the bcrypt hash. */
  datatype UserRow = UserRow(nama_user: string, email: string, password: string)

  /** `SELECT * FROM tbl_kategori`: one category. */
  datatype KategoriView = KategoriView(id_kategori: nat, nama_kategori: string)

  /** `p.*, k.nama_kategori` plus the synthesised `foto_url`. */
  datatype ProdukView = ProdukView(
    id_produk: nat,
    id_kategori: Option<nat>,
    nama_produk: string,
    kode_produk: string,
    foto_produk: Option<string>,
    tgl_register: string,
    nama_kategori: Option<string>,
    foto_url: Option<string>)

  /** `s.*, p.nama_produk, p.kode_produk`. */
  datatype StokView = StokView(
    id_stok: nat,
    id_produk: nat,
    jumlah_barang: int,
    tgl_update: string,
    nama_produk: Option<string>,
    kode_produk: Option<string>)

  /** The user object a successful login returns: no password. */
  datatype PublicUser = PublicUser(id_user: nat, nama_user: string, email: string)
}
