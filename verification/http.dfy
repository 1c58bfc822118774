/**
 * HTTP responses as the handlers produce them (`res.status(..).json(..)`),
 * and the application-wide error handler of server.js that turns an error
 * passed on by a middleware into a response.
 */
module Http {
  import opened Options
  import opened Strings
  import opened Schema
  import Upload

  /** `req.protocol` and `req.get("host")`. */
  datatype Origin = Origin(protocol: string, host: string)

  /** The JSON bodies the API sends. */
  datatype Body =
    | Message(message: string)
    | KategoriCreated(message: string, id_kategori: nat)
    | ProdukCreated(message: string, id_produk: nat, foto_url: Option<string>)
    | ProdukUpdated(message: string, foto_url: Option<string>)
    | StokCreated(message: string, id_stok: nat)
    | UserRegistered(message: string, id_user: nat)
    | LoggedIn(message: string, token: string, user: PublicUser)
    | KategoriList(kategoris: seq<KategoriView>)
    | KategoriItem(kategori: KategoriView)
    | ProdukList(produks: seq<ProdukView>)
    | ProdukItem(produk: ProdukView)
    | StokList(stoks: seq<StokView>)
    | StokItem(stok: StokView)

  datatype Response = Response(status: nat, body: Body)

  /** What a handler leaves behind: the new state and the response sent. */
  datatype Handled<S> = Handled(state: S, response: Response)

  const ServerErrorMessage := "Terjadi kesalahan server"

  /** The word the error handler looks for in a message. */
  const HandledWord := "gambar"

  /** The error handler: an error whose message mentions "gambar" (the
      upload filter's) is a client error reported verbatim; any other is
      reported as a generic server error. */
  function ErrorHandler(message: string): (r: Response)
    ensures r.status == 400 <==> exists i: nat :: OccursAt(message, HandledWord, i)
    ensures r.status == 400 ==> r.body == Message(message)
    ensures r.status != 400 ==> r == Response(500, Message(ServerErrorMessage))
  {
    if Contains(message, HandledWord) then Response(400, Message(message))
    else Response(500, Message(ServerErrorMessage))
  }

  /** A file refused by the upload filter is answered with 400 and the
      filter's own message. */
  lemma FilterErrorIsBadRequest()
    ensures ErrorHandler(Upload.FilterMessage) == Response(400, Message(Upload.FilterMessage))
  {
    var before, after := "Hanya file ", " yang diperbolehkan (jpeg, jpg, png, gif)";
    assert Upload.FilterMessage == before + Upload.ImageWord + after;
    assert Upload.ImageWord == HandledWord;
    assert |before| == 11;
    assert (before + HandledWord + after)[11..17] == HandledWord;
    assert OccursAt(Upload.FilterMessage, "gambar", 11);
  }

  /** multer's size-limit error does not mention "gambar", so the handler
      above answers it as a server error although the client sent too large
      a file: the branch meant for upload errors misses it. */
  lemma SizeLimitIsServerError()
    ensures ErrorHandler(Upload.SizeLimitMessage) == Response(500, Message(ServerErrorMessage))
  {
    assert Upload.SizeLimitMessage == "File too " + "large";
    AbsentFirstCharBefore("File too ", "large", HandledWord);
  }

  /** An error passed to the error handler: its message, and whether multer
      raised it (a `MulterError`, such as the size limit's). */
  datatype Failure = Failure(message: string, fromMulter: bool)

  /** The error handler as intended: every upload error, the filter's and
      multer's own alike, is a client error reported verbatim; any other
      error is a generic server error. */
  function IntendedErrorHandler(f: Failure): (r: Response)
    ensures r.status == 400 <==> f.fromMulter || exists i: nat :: OccursAt(f.message, HandledWord, i)
    ensures r.status == 400 ==> r.body == Message(f.message)
    ensures r.status != 400 ==> r == Response(500, Message(ServerErrorMessage))
  {
    if f.fromMulter then Response(400, Message(f.message)) else ErrorHandler(f.message)
  }

  /** The intended handler differs from the one as written only on errors
      multer raised. */
  lemma IntendedDiffersOnlyOnMulterErrors(f: Failure)
    ensures IntendedErrorHandler(f) != ErrorHandler(f.message) <==>
      f.fromMulter && !Contains(f.message, HandledWord)
  {
  }

  /** Which handler answers an error: the one `server.js` has, or the
      corrected one above. */
  datatype ErrorPolicy = AsWritten | Intended

  function HandleError(errors: ErrorPolicy, f: Failure): Response {
    match errors
    case AsWritten => ErrorHandler(f.message)
    case Intended => IntendedErrorHandler(f)
  }
}
