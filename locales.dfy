/** Locales (venues) and their images: POST /registrarLocal, the two GET routes
    that read a local back with its image list, PUT /actualizar_local/:localId
    and DELETE /eliminarLocal/:localId, over in-memory `Locales` and
    `ImagenesLocales` tables. */
module Locales {
  import opened Wrappers
  import opened JsText
  import opened ImageList

  /** A row of `Locales`. `direccion` and `pdf_url` start NULL. */
  datatype Local = Local(
    id: nat,
    nombre: string,
    direccion: Option<string>,
    proveedorId: nat,
    contratoUrl: string,
    pdfUrl: Option<string>)

  /** A row of `ImagenesLocales`. */
  datatype ImagenLocal = ImagenLocal(localId: nat, url: string)

  /** The object the GET routes send for one local. */
  datatype LocalView = LocalView(
    localId: nat,
    nombre: string,
    direccion: Option<string>,
    contratoUrl: string,
    pdfUrl: Option<string>,
    proveedorId: nat,
    imagenes: seq<string>)

  // ---------------------------------------------------------------------------
  // URLs of uploaded files; `origin` is `${req.protocol}://${req.get('host')}`

  /** `${origin}/${folder}/${filename}`: the public URL of an uploaded file.
      Its last segment is the stored file name, since a generated name has no '/'. */
  function UploadUrl(origin: string, folder: string, filename: string): (url: string)
    ensures '/' !in filename ==> LastSegment(url) == filename
  {
    var url := origin + "/" + folder + "/" + filename;
    if '/' in filename then url else LastSegmentAfterSlash(origin + "/" + folder, filename); url
  }

  /** A file stored by the `uploadLocal` uploader (images and contracts). */
  function LocalFileUrl(origin: string, filename: string): string {
    UploadUrl(origin, "uploadLocal", filename)
  }

  /** A PDF URL is never empty, so `if (pdfUrl)` holds whenever a PDF was uploaded. */
  lemma PdfFileUrlNotEmpty(origin: string, filename: string)
    ensures Truthy(Some(PdfFileUrl(origin, filename)))
  {
    assert PdfFileUrl(origin, filename)[|origin|] == '/';
  }

  /** A file stored by the PDF uploader. */
  function PdfFileUrl(origin: string, filename: string): string {
    UploadUrl(origin, "papeles_locales", filename)
  }

  /** `req.files['imagenes'].map(file => ...)`: one URL per upload, in upload order. */
  function LocalFileUrls(origin: string, filenames: seq<string>): (urls: seq<string>)
    ensures |urls| == |filenames|
    ensures forall k :: 0 <= k < |urls| ==> urls[k] == LocalFileUrl(origin, filenames[k])
  {
    if filenames == [] then []
    else [LocalFileUrl(origin, filenames[0])] + LocalFileUrls(origin, filenames[1..])
  }

  /** `imagenesUrls.map(url => [localId, url])`: the rows of the bulk INSERT,
      one per URL, in order, all owned by `localId`. */
  function ImageRows(localId: nat, urls: seq<string>): (rows: seq<ImagenLocal>)
    ensures |rows| == |urls|
    ensures forall k :: 0 <= k < |rows| ==> rows[k] == ImagenLocal(localId, urls[k])
  {
    if urls == [] then [] else [ImagenLocal(localId, urls[0])] + ImageRows(localId, urls[1..])
  }

  /** The image URLs of one local, in table order: what the LEFT JOIN feeds to
      GROUP_CONCAT, and what `SELECT url_imagen FROM ImagenesLocales WHERE
      local_id = ?` returns. */
  function UrlsOf(imagenes: seq<ImagenLocal>, localId: nat): (urls: seq<string>)
    ensures |urls| <= |imagenes|
    ensures forall u :: u in urls <==> ImagenLocal(localId, u) in imagenes
  {
    if imagenes == [] then []
    else (if imagenes[0].localId == localId then [imagenes[0].url] else []) + UrlsOf(imagenes[1..], localId)
  }

  lemma {:induction false} UrlsOfAppend(a: seq<ImagenLocal>, b: seq<ImagenLocal>, localId: nat)
    ensures UrlsOf(a + b, localId) == UrlsOf(a, localId) + UrlsOf(b, localId)
  {
    if a == [] {
      assert a + b == b;
    } else {
      assert (a + b)[1..] == a[1..] + b;
      UrlsOfAppend(a[1..], b, localId);
    }
  }

  /** The rows inserted for a local give back its URLs, in order; another
      local sees none of them. */
  lemma {:induction false} UrlsOfImageRows(localId: nat, urls: seq<string>, other: nat)
    ensures UrlsOf(ImageRows(localId, urls), localId) == urls
    ensures other != localId ==> UrlsOf(ImageRows(localId, urls), other) == []
  {
    if urls != [] {
      UrlsOfImageRows(localId, urls[1..], other);
      assert ImageRows(localId, urls)[1..] == ImageRows(localId, urls[1..]);
    }
  }

  /** `WHERE id = ?` on `Locales`: the row with that id, if any. */
  function FindLocal(locales: seq<Local>, id: nat): (found: Option<Local>)
    ensures found.None? <==> forall k :: 0 <= k < |locales| ==> locales[k].id != id
    ensures found.Some? ==> found.value.id == id && found.value in locales
  {
    if locales == [] then None
    else if locales[0].id == id then Some(locales[0])
    else FindLocal(locales[1..], id)
  }

  lemma {:induction false} FindLocalAppend(locales: seq<Local>, l: Local, id: nat)
    ensures FindLocal(locales + [l], id) ==
      if FindLocal(locales, id).Some? then FindLocal(locales, id)
      else if l.id == id then Some(l) else None
  {
    if locales == [] {
      assert locales + [l] == [l];
    } else {
      assert (locales + [l])[1..] == locales[1..] + [l];
      FindLocalAppend(locales[1..], l, id);
    }
  }

  /** The object built from one grouped row: the local's columns and
      `imagenes ? imagenes.split(', ') : []` over the GROUP_CONCAT column. */
  function ViewOf(l: Local, imagenes: seq<ImagenLocal>): (v: LocalView)
    ensures && v.localId == l.id && v.nombre == l.nombre && v.direccion == l.direccion
            && v.contratoUrl == l.contratoUrl && v.pdfUrl == l.pdfUrl && v.proveedorId == l.proveedorId
    ensures v.imagenes == Decode(GroupConcat(UrlsOf(imagenes, l.id)))
  {
    LocalView(l.id, l.nombre, l.direccion, l.contratoUrl, l.pdfUrl, l.proveedorId,
              Decode(GroupConcat(UrlsOf(imagenes, l.id))))
  }

  /** GET /api/local/info/:localId; None is the 404. */
  function LocalInfo(locales: seq<Local>, imagenes: seq<ImagenLocal>, localId: nat): (info: Option<LocalView>)
    ensures info.None? <==> FindLocal(locales, localId).None?
    ensures info.Some? ==> info.value.localId == localId && info.value == ViewOf(FindLocal(locales, localId).value, imagenes)
  {
    match FindLocal(locales, localId)
    case None => None
    case Some(l) => Some(ViewOf(l, imagenes))
  }

  /** GET /api/local/:userId: one object per local of the provider, in table
      order; the route answers 404 when the list is empty. */
  function LocalesOf(locales: seq<Local>, imagenes: seq<ImagenLocal>, proveedorId: nat): (views: seq<LocalView>)
    ensures |views| <= |locales|
    ensures forall k :: 0 <= k < |views| ==> views[k].proveedorId == proveedorId
    ensures views == [] <==> forall k :: 0 <= k < |locales| ==> locales[k].proveedorId != proveedorId
  {
    if locales == [] then []
    else
      (if locales[0].proveedorId == proveedorId then [ViewOf(locales[0], imagenes)] else [])
      + LocalesOf(locales[1..], imagenes, proveedorId)
  }

  /** A local's view lists exactly its image URLs, in table order, when none of
      them contains ", " and none is empty. */
  lemma ViewImages(l: Local, imagenes: seq<ImagenLocal>)
    requires forall k :: 0 <= k < |imagenes| && imagenes[k].localId == l.id ==>
      !ContainsSeparator(imagenes[k].url) && imagenes[k].url != []
    ensures ViewOf(l, imagenes).imagenes == UrlsOf(imagenes, l.id)
  {
    var urls := UrlsOf(imagenes, l.id);
    forall i | 0 <= i < |urls| ensures !ContainsSeparator(urls[i]) && urls[i] != [] {
      assert urls[i] in urls;
      var k :| 0 <= k < |imagenes| && imagenes[k] == ImagenLocal(l.id, urls[i]);
    }
    DecodeGroupConcat(urls);
    assert urls != [""] by {
      if |urls| == 1 {
        assert urls[0] != [];
      }
    }
  }

  /** The provider's list holds the view of every local of that provider, and
      nothing else. */
  lemma {:induction false} LocalesOfExactly(locales: seq<Local>, imagenes: seq<ImagenLocal>, proveedorId: nat)
    ensures forall k :: 0 <= k < |locales| && locales[k].proveedorId == proveedorId ==>
      ViewOf(locales[k], imagenes) in LocalesOf(locales, imagenes, proveedorId)
    ensures forall v :: v in LocalesOf(locales, imagenes, proveedorId) ==>
      exists k :: 0 <= k < |locales| && locales[k].proveedorId == proveedorId && v == ViewOf(locales[k], imagenes)
  {
    if locales != [] {
      var rest := locales[1..];
      LocalesOfExactly(rest, imagenes, proveedorId);
      var head := if locales[0].proveedorId == proveedorId then [ViewOf(locales[0], imagenes)] else [];
      var tail := LocalesOf(rest, imagenes, proveedorId);
      var views := LocalesOf(locales, imagenes, proveedorId);
      assert views == head + tail;
      forall k | 0 <= k < |locales| && locales[k].proveedorId == proveedorId
        ensures ViewOf(locales[k], imagenes) in views
      {
        if k > 0 {
          assert locales[k] == rest[k - 1];
        }
      }
      forall v | v in views
        ensures exists k :: 0 <= k < |locales| && locales[k].proveedorId == proveedorId && v == ViewOf(locales[k], imagenes)
      {
        if v in tail {
          var j :| 0 <= j < |rest| && rest[j].proveedorId == proveedorId && v == ViewOf(rest[j], imagenes);
          assert rest[j] == locales[j + 1];
        } else {
          assert v == ViewOf(locales[0], imagenes);
        }
      }
    }
  }

  lemma {:induction false} LocalesOfAppend(a: seq<Local>, l: Local, imagenes: seq<ImagenLocal>, proveedorId: nat)
    ensures LocalesOf(a + [l], imagenes, proveedorId) ==
      LocalesOf(a, imagenes, proveedorId) + (if l.proveedorId == proveedorId then [ViewOf(l, imagenes)] else [])
  {
    var last := if l.proveedorId == proveedorId then [ViewOf(l, imagenes)] else [];
    if a == [] {
      assert a + [l] == [l];
      assert LocalesOf([l], imagenes, proveedorId) == last + LocalesOf([], imagenes, proveedorId);
    } else {
      var head := if a[0].proveedorId == proveedorId then [ViewOf(a[0], imagenes)] else [];
      assert (a + [l])[0] == a[0] && (a + [l])[1..] == a[1..] + [l];
      LocalesOfAppend(a[1..], l, imagenes, proveedorId);
      calc {
        LocalesOf(a + [l], imagenes, proveedorId);
        head + LocalesOf(a[1..] + [l], imagenes, proveedorId);
        head + (LocalesOf(a[1..], imagenes, proveedorId) + last);
        (head + LocalesOf(a[1..], imagenes, proveedorId)) + last;
        LocalesOf(a, imagenes, proveedorId) + last;
      }
    }
  }

  /** The locals of a provider that had none, read back after a registration,
      are the new one alone. */
  lemma NewProviderReadsOneLocal(a: seq<Local>, l: Local, imagenes: seq<ImagenLocal>)
    requires forall k :: 0 <= k < |a| ==> a[k].proveedorId != l.proveedorId
    ensures LocalesOf(a + [l], imagenes, l.proveedorId) == [ViewOf(l, imagenes)]
  {
    LocalesOfAppend(a, l, imagenes, l.proveedorId);
  }

  /** A URL built from separator-free parts holds no ", " and is not empty. */
  lemma FileUrlNoSeparator(origin: string, filename: string)
    requires !ContainsSeparator(origin) && !ContainsSeparator(filename)
    ensures !ContainsSeparator(LocalFileUrl(origin, filename)) && LocalFileUrl(origin, filename) != []
  {
    var dir := "/uploadLocal/";
    assert ',' !in dir;
    ConcatNoSeparator(origin, dir);
    ConcatNoSeparator(origin + dir, filename);
    assert LocalFileUrl(origin, filename) == origin + dir + filename;
  }

  /** Every URL of a registration's images is separator-free and non-empty. */
  lemma FileUrlsNoSeparator(origin: string, filenames: seq<string>)
    requires !ContainsSeparator(origin)
    requires forall k :: 0 <= k < |filenames| ==> !ContainsSeparator(filenames[k])
    ensures forall k :: 0 <= k < |filenames| ==>
      !ContainsSeparator(LocalFileUrls(origin, filenames)[k]) && LocalFileUrls(origin, filenames)[k] != []
  {
    forall k | 0 <= k < |filenames|
      ensures !ContainsSeparator(LocalFileUrl(origin, filenames[k])) && LocalFileUrl(origin, filenames[k]) != []
    {
      FileUrlNoSeparator(origin, filenames[k]);
    }
  }

  /** The image rows appended for a fresh id are all the URLs that id has. */
  lemma FreshRowsUrls(imagenes: seq<ImagenLocal>, id: nat, urls: seq<string>)
    requires forall k :: 0 <= k < |imagenes| ==> imagenes[k].localId != id
    ensures UrlsOf(imagenes + ImageRows(id, urls), id) == urls
  {
    UrlsOfAppend(imagenes, ImageRows(id, urls), id);
    UrlsOfImageRows(id, urls, id);
    UrlsOfAbsent(imagenes, id);
  }

  /** A local without image rows has no URL. */
  lemma {:induction false} UrlsOfAbsent(imagenes: seq<ImagenLocal>, id: nat)
    requires forall k :: 0 <= k < |imagenes| ==> imagenes[k].localId != id
    ensures UrlsOf(imagenes, id) == []
  {
    if imagenes != [] {
      UrlsOfAbsent(imagenes[1..], id);
    }
  }

  /** Non-empty, separator-free URLs survive GROUP_CONCAT and the split. */
  lemma DecodeUrls(urls: seq<string>)
    requires forall k :: 0 <= k < |urls| ==> !ContainsSeparator(urls[k]) && urls[k] != []
    ensures Decode(GroupConcat(urls)) == urls
  {
    DecodeGroupConcat(urls);
    assert urls != [""] by {
      if |urls| == 1 {
        assert urls[0] != [];
      }
    }
  }

  /** A local registered with a fresh id and its image rows reads back, by id,
      with exactly its image URLs in upload order, provided no URL contains
      ", " and none is empty. */
  lemma RegisteredLocalReadsBack(locales: seq<Local>, imagenes: seq<ImagenLocal>, l: Local, urls: seq<string>)
    requires forall k :: 0 <= k < |locales| ==> locales[k].id != l.id
    requires forall k :: 0 <= k < |imagenes| ==> imagenes[k].localId != l.id
    requires forall k :: 0 <= k < |urls| ==> !ContainsSeparator(urls[k]) && urls[k] != []
    ensures LocalInfo(locales + [l], imagenes + ImageRows(l.id, urls), l.id) ==
      Some(LocalView(l.id, l.nombre, l.direccion, l.contratoUrl, l.pdfUrl, l.proveedorId, urls))
  {
    var all := imagenes + ImageRows(l.id, urls);
    FindLocalAppend(locales, l, l.id);
    FreshRowsUrls(imagenes, l.id, urls);
    DecodeUrls(urls);
    assert ViewOf(l, all).imagenes == urls;
  }

  // ---------------------------------------------------------------------------
  // PUT /actualizar_local/:localId: the UPDATE statement and its parameters

  /** A value bound to a `?` of a statement. */
  datatype SqlValue = Text(text: string) | Id(id: nat)

  const UpdateHead: string := "UPDATE locales SET direccion = ?"
  const PdfClause: string := ", pdf_url = ?"
  const UpdateTail: string := " WHERE id = ?"

  /** The finished UPDATE statement, with or without the `pdf_url` assignment. */
  function UpdateQuery(withPdf: bool): string {
    UpdateHead + (if withPdf then PdfClause else "") + UpdateTail
  }

  /** The values bound to the statement: the address, the PDF URL when `if
      (pdfUrl)` holds, then the id. */
  function UpdateParams(direccion: string, pdfUrl: Option<string>, localId: nat): seq<SqlValue> {
    [Text(direccion)] + (if Truthy(pdfUrl) then [Text(pdfUrl.value)] else []) + [Id(localId)]
  }

  /** The number of `?` placeholders of a statement. */
  function Placeholders(query: string): nat {
    if query == [] then 0 else (if query[0] == '?' then 1 else 0) + Placeholders(query[1..])
  }

  lemma {:induction false} PlaceholdersAppend(a: string, b: string)
    ensures Placeholders(a + b) == Placeholders(a) + Placeholders(b)
  {
    if a == [] {
      assert a + b == b;
    } else {
      assert (a + b)[1..] == a[1..] + b;
      PlaceholdersAppend(a[1..], b);
    }
  }

  lemma {:induction false} NoPlaceholders(text: string)
    requires '?' !in text
    ensures Placeholders(text) == 0
  {
    if text != [] {
      NoPlaceholders(text[1..]);
    }
  }

  lemma OnePlaceholderAtEnd(text: string)
    requires '?' !in text
    ensures Placeholders(text + "?") == 1
  {
    PlaceholdersAppend(text, "?");
    NoPlaceholders(text);
  }

  /** Each fragment of the statement carries exactly one placeholder. */
  lemma HeadPlaceholders()
    ensures Placeholders(UpdateHead) == 1
  {
    assert UpdateHead == "UPDATE locales SET direccion = " + "?";
    OnePlaceholderAtEnd("UPDATE locales SET direccion = ");
  }

  lemma PdfClausePlaceholders()
    ensures Placeholders(PdfClause) == 1
  {
    assert PdfClause == ", pdf_url = " + "?";
    OnePlaceholderAtEnd(", pdf_url = ");
  }

  lemma TailPlaceholders()
    ensures Placeholders(UpdateTail) == 1
  {
    assert UpdateTail == " WHERE id = " + "?";
    OnePlaceholderAtEnd(" WHERE id = ");
  }

  /** The statement with and without the PDF clause. */
  lemma StatementPlaceholders()
    ensures Placeholders(UpdateHead + PdfClause + UpdateTail) == 3
    ensures Placeholders(UpdateHead + UpdateTail) == 2
  {
    HeadPlaceholders();
    PdfClausePlaceholders();
    TailPlaceholders();
    PlaceholdersAppend(UpdateHead, PdfClause);
    PlaceholdersAppend(UpdateHead + PdfClause, UpdateTail);
    PlaceholdersAppend(UpdateHead, UpdateTail);
  }

  /** The statement is built with `+=` and the parameters with `push`, side by
      side: it starts with the address assignment, carries the `pdf_url`
      assignment exactly when a PDF URL is present, ends with the id condition,
      and binds [direccion, pdfUrl?, localId] in that order, one value per `?`. */
  method BuildLocalUpdate(direccion: string, pdfUrl: Option<string>, localId: nat)
    returns (query: string, params: seq<SqlValue>)
    ensures Placeholders(query) == |params|
    ensures query == UpdateQuery(Truthy(pdfUrl))
    ensures params == UpdateParams(direccion, pdfUrl, localId)
    ensures Truthy(pdfUrl) ==> query == UpdateHead + PdfClause + UpdateTail
    ensures !Truthy(pdfUrl) ==> query == UpdateHead + UpdateTail
    ensures Truthy(pdfUrl) ==> params == [Text(direccion), Text(pdfUrl.value), Id(localId)]
    ensures !Truthy(pdfUrl) ==> params == [Text(direccion), Id(localId)]
  {
    StatementPlaceholders();
    query := UpdateHead;
    params := [Text(direccion)];
    if Truthy(pdfUrl) {
      query := query + PdfClause;
      params := params + [Text(pdfUrl.value)];
    }
    query := query + UpdateTail;
    params := params + [Id(localId)];
  }

  /** What the UPDATE does to the table: the row with the id gets the address,
      and the PDF URL when one is present; every other row is left alone. */
  function SetAddress(locales: seq<Local>, localId: nat, direccion: string, pdfUrl: Option<string>): (updated: seq<Local>)
    ensures |updated| == |locales|
    ensures forall k :: 0 <= k < |locales| ==>
      updated[k] == if locales[k].id != localId then locales[k]
                    else locales[k].(direccion := Some(direccion),
                                     pdfUrl := if Truthy(pdfUrl) then pdfUrl else locales[k].pdfUrl)
  {
    if locales == [] then []
    else
      var l := locales[0];
      var l' := if l.id != localId then l
                else l.(direccion := Some(direccion), pdfUrl := if Truthy(pdfUrl) then pdfUrl else l.pdfUrl);
      [l'] + SetAddress(locales[1..], localId, direccion, pdfUrl)
  }

  datatype UpdateResponse =
    | MissingAddress
    | Updated(pdfUrl: Option<string>, query: string, params: seq<SqlValue>)

  function UpdateStatus(r: UpdateResponse): (status: int)
    ensures status == 200 <==> r.Updated?
    ensures status == 400 <==> r.MissingAddress?
  {
    if r.MissingAddress? then 400 else 200
  }

  // ---------------------------------------------------------------------------
  // POST /registrarLocal

  datatype RegistrarResponse =
    | UploadRejected
    | MissingContract
    | MissingFields
    | RegisteredWithoutImages(localId: nat, contratoUrl: string)
    | RegisteredWithImages(localId: nat, imagenesUrls: seq<string>, contratoUrl: string)

  function RegistrarStatus(r: RegistrarResponse): (status: int)
    ensures status == 200 <==> r.RegisteredWithoutImages? || r.RegisteredWithImages?
    ensures status == 500 <==> r.UploadRejected?
    ensures status == 400 <==> r.MissingContract? || r.MissingFields?
  {
    match r
    case UploadRejected => 500
    case MissingContract => 400
    case MissingFields => 400
    case RegisteredWithoutImages(_, _) => 200
    case RegisteredWithImages(_, _, _) => 200
  }

  /** The request passes the upload limits and every check of the handler. */
  predicate RegistrarAccepts(nombre: Option<string>, proveedorId: Option<nat>, contrato: seq<string>, imagenFiles: seq<string>) {
    |imagenFiles| <= 10 && |contrato| == 1 && Truthy(nombre) && proveedorId.Some?
  }

  // ---------------------------------------------------------------------------
  // DELETE /eliminarLocal/:localId

  /** `DELETE FROM Locales WHERE id = ?` */
  function WithoutLocal(locales: seq<Local>, localId: nat): (rest: seq<Local>)
    ensures |rest| <= |locales|
    ensures forall k :: 0 <= k < |rest| ==> rest[k].id != localId && rest[k] in locales
    ensures forall k :: 0 <= k < |locales| && locales[k].id != localId ==> locales[k] in rest
  {
    if locales == [] then []
    else (if locales[0].id == localId then [] else [locales[0]]) + WithoutLocal(locales[1..], localId)
  }

  /** `DELETE FROM ImagenesLocales WHERE local_id = ?` */
  function WithoutImagesOf(imagenes: seq<ImagenLocal>, localId: nat): (rest: seq<ImagenLocal>)
    ensures forall k :: 0 <= k < |rest| ==> rest[k].localId != localId && rest[k] in imagenes
  {
    if imagenes == [] then []
    else (if imagenes[0].localId == localId then [] else [imagenes[0]]) + WithoutImagesOf(imagenes[1..], localId)
  }

  /** Deleting one local's images leaves every other local's image list as it was. */
  lemma {:induction false} UrlsOfWithout(imagenes: seq<ImagenLocal>, localId: nat, other: nat)
    requires other != localId
    ensures UrlsOf(WithoutImagesOf(imagenes, localId), other) == UrlsOf(imagenes, other)
  {
    if imagenes != [] {
      UrlsOfWithout(imagenes[1..], localId, other);
      var head := if imagenes[0].localId == localId then [] else [imagenes[0]];
      UrlsOfAppend(head, WithoutImagesOf(imagenes[1..], localId), other);
    }
  }

  /** Deleting one local leaves the lookup of every other id as it was. */
  lemma {:induction false} FindLocalWithout(locales: seq<Local>, localId: nat, other: nat)
    requires other != localId
    ensures FindLocal(WithoutLocal(locales, localId), other) == FindLocal(locales, other)
  {
    if locales != [] {
      var tail := WithoutLocal(locales[1..], localId);
      FindLocalWithout(locales[1..], localId, other);
      if locales[0].id == localId {
        assert WithoutLocal(locales, localId) == tail;
      } else {
        assert WithoutLocal(locales, localId) == [locales[0]] + tail;
        assert ([locales[0]] + tail)[1..] == tail;
      }
    }
  }


  // ---------------------------------------------------------------------------
  // The image files /eliminarLocal tries to remove

  /** Where the `uploadLocal` uploader stored a file, relative to the server's
      directory. */
  function StoredPath(filename: string): string {
    "uploadLocal/" + filename
  }

  /** The normalisation `path.join` applies here: a run of '/' becomes one. */
  function CollapseSlashes(s: string): (r: string)
    ensures '/' in s ==> '/' in r
  {
    if |s| >= 2 && s[0] == '/' && s[1] == '/' then CollapseSlashes(s[1..])
    else if s == [] then []
    else [s[0]] + CollapseSlashes(s[1..])
  }

  /** `path.join(__dirname, '/uploadLocal', row.url_imagen)` relative to the
      server's directory, as written: the stored value is a full URL. */
  function UnlinkPathAsWritten(url: string): string {
    "uploadLocal/" + CollapseSlashes(url)
  }

  /** The as-written path never names the stored file: the URL keeps a '/'
      after normalisation, and a generated file name has none. */
  lemma UnlinkPathAsWrittenMissesFile(origin: string, filename: string)
    requires '/' !in filename
    ensures UnlinkPathAsWritten(LocalFileUrl(origin, filename)) != StoredPath(filename)
  {
    var url := LocalFileUrl(origin, filename);
    assert url[|origin|] == '/';
    var collapsed := CollapseSlashes(url);
    assert '/' in collapsed;
    assert UnlinkPathAsWritten(url)[|"uploadLocal/"|..] == collapsed;
    assert StoredPath(filename)[|"uploadLocal/"|..] == filename;
  }

  /** What follows the last '/' of `s` (all of `s` when it has none). */
  function LastSegment(s: string): (r: string)
    ensures '/' !in r
    ensures '/' !in s ==> r == s
  {
    if s == [] then []
    else if s[|s| - 1] == '/' then []
    else LastSegment(s[..|s| - 1]) + [s[|s| - 1]]
  }

  /** The path the handler evidently means: the stored file's name is the last
      segment of its URL. */
  function UnlinkPath(url: string): string {
    "uploadLocal/" + LastSegment(url)
  }

  lemma {:induction false} LastSegmentAfterSlash(prefix: string, filename: string)
    requires '/' !in filename
    ensures LastSegment(prefix + "/" + filename) == filename
    decreases |filename|
  {
    var s := prefix + "/" + filename;
    if filename == [] {
      assert s[|s| - 1] == '/';
    } else {
      var init := filename[..|filename| - 1];
      assert s[..|s| - 1] == prefix + "/" + init;
      LastSegmentAfterSlash(prefix, init);
      assert filename == init + [filename[|filename| - 1]];
    }
  }

  /** The corrected path names exactly the file the upload stored. */
  lemma UnlinkPathFindsFile(origin: string, filename: string)
    requires '/' !in filename
    ensures UnlinkPath(LocalFileUrl(origin, filename)) == StoredPath(filename)
  {
    assert LocalFileUrl(origin, filename) == (origin + "/uploadLocal") + "/" + filename;
    LastSegmentAfterSlash(origin + "/uploadLocal", filename);
  }

  /** The invariant of the two tables: ids are distinct and below the
      AUTO_INCREMENT counter, and every image belongs to a local that exists
      (the handlers keep it; the schema's foreign key is not relied on). */
  ghost predicate TablesValid(locales: seq<Local>, imagenes: seq<ImagenLocal>, nextId: nat) {
    && (forall k :: 0 <= k < |locales| ==> locales[k].id < nextId)
    && IdsDistinct(locales)
    && (forall k :: 0 <= k < |imagenes| ==> FindLocal(locales, imagenes[k].localId).Some?)
  }

  /** The counter's value names no local and no image. */
  lemma FreshIdUnused(locales: seq<Local>, imagenes: seq<ImagenLocal>, nextId: nat)
    requires TablesValid(locales, imagenes, nextId)
    ensures forall k :: 0 <= k < |locales| ==> locales[k].id != nextId
    ensures forall k :: 0 <= k < |imagenes| ==> imagenes[k].localId != nextId
  {
    forall k | 0 <= k < |imagenes| ensures imagenes[k].localId != nextId {
      var found := FindLocal(locales, imagenes[k].localId).value;
      var m :| 0 <= m < |locales| && locales[m] == found;
    }
  }

  /** Registering a local under the counter's id, with its image rows, keeps
      the invariant. */
  lemma RegisterKeepsValid(locales: seq<Local>, imagenes: seq<ImagenLocal>, nextId: nat, l: Local, rows: seq<ImagenLocal>)
    requires TablesValid(locales, imagenes, nextId)
    requires l.id == nextId
    requires forall k :: 0 <= k < |rows| ==> rows[k].localId == nextId
    ensures TablesValid(locales + [l], imagenes + rows, nextId + 1)
  {
    FreshIdUnused(locales, imagenes, nextId);
    var all := imagenes + rows;
    forall k | 0 <= k < |all| ensures FindLocal(locales + [l], all[k].localId).Some? {
      FindLocalAppend(locales, l, all[k].localId);
      if k >= |imagenes| {
        assert all[k] == rows[k - |imagenes|];
      }
    }
  }

  lemma {:induction false} FindLocalSetAddress(locales: seq<Local>, localId: nat, direccion: string, pdfUrl: Option<string>, id: nat)
    ensures FindLocal(SetAddress(locales, localId, direccion, pdfUrl), id).Some? == FindLocal(locales, id).Some?
  {
    if locales != [] {
      FindLocalSetAddress(locales[1..], localId, direccion, pdfUrl, id);
      assert SetAddress(locales, localId, direccion, pdfUrl)[1..] == SetAddress(locales[1..], localId, direccion, pdfUrl);
    }
  }

  /** The UPDATE keeps the invariant, and changes nothing when no local has
      the id. */
  lemma SetAddressKeepsValid(locales: seq<Local>, imagenes: seq<ImagenLocal>, nextId: nat,
                             localId: nat, direccion: string, pdfUrl: Option<string>)
    requires TablesValid(locales, imagenes, nextId)
    ensures TablesValid(SetAddress(locales, localId, direccion, pdfUrl), imagenes, nextId)
    ensures FindLocal(locales, localId).None? ==> SetAddress(locales, localId, direccion, pdfUrl) == locales
  {
    var updated := SetAddress(locales, localId, direccion, pdfUrl);
    assert forall k :: 0 <= k < |locales| ==> updated[k].id == locales[k].id;
    forall k | 0 <= k < |imagenes| ensures FindLocal(updated, imagenes[k].localId).Some? {
      FindLocalSetAddress(locales, localId, direccion, pdfUrl, imagenes[k].localId);
    }
  }

  /** Deleting a local and its images keeps the invariant and every other
      local's view. */
  lemma DeleteKeepsValid(locales: seq<Local>, imagenes: seq<ImagenLocal>, nextId: nat, localId: nat)
    requires TablesValid(locales, imagenes, nextId)
    ensures TablesValid(WithoutLocal(locales, localId), WithoutImagesOf(imagenes, localId), nextId)
    ensures LocalInfo(WithoutLocal(locales, localId), WithoutImagesOf(imagenes, localId), localId).None?
    ensures forall other :: other != localId ==>
      LocalInfo(WithoutLocal(locales, localId), WithoutImagesOf(imagenes, localId), other) == LocalInfo(locales, imagenes, other)
  {
    var rest, restImages := WithoutLocal(locales, localId), WithoutImagesOf(imagenes, localId);
    WithoutLocalKeepsDistinct(locales, localId);
    forall k | 0 <= k < |restImages| ensures FindLocal(rest, restImages[k].localId).Some? {
      var m :| 0 <= m < |imagenes| && imagenes[m] == restImages[k];
      FindLocalWithout(locales, localId, restImages[k].localId);
    }
    forall other | other != localId
      ensures LocalInfo(rest, restImages, other) == LocalInfo(locales, imagenes, other)
    {
      FindLocalWithout(locales, localId, other);
      UrlsOfWithout(imagenes, localId, other);
    }
  }

  ghost predicate IdsDistinct(locales: seq<Local>) {
    forall i, j :: 0 <= i < j < |locales| ==> locales[i].id != locales[j].id
  }

  lemma ConsDistinct(l: Local, rest: seq<Local>)
    requires IdsDistinct(rest)
    requires forall k :: 0 <= k < |rest| ==> rest[k].id != l.id
    ensures IdsDistinct([l] + rest)
  {
    var all := [l] + rest;
    forall i, j | 0 <= i < j < |all| ensures all[i].id != all[j].id {
      assert all[j] == rest[j - 1];
      if i > 0 {
        assert all[i] == rest[i - 1];
      }
    }
  }

  lemma {:induction false} WithoutLocalKeepsDistinct(locales: seq<Local>, localId: nat)
    requires IdsDistinct(locales)
    ensures IdsDistinct(WithoutLocal(locales, localId))
  {
    if locales != [] {
      assert IdsDistinct(locales[1..]) by {
        forall i, j | 0 <= i < j < |locales[1..]| ensures locales[1..][i].id != locales[1..][j].id {
          assert locales[1..][i] == locales[i + 1] && locales[1..][j] == locales[j + 1];
        }
      }
      WithoutLocalKeepsDistinct(locales[1..], localId);
      var tail := WithoutLocal(locales[1..], localId);
      if locales[0].id != localId {
        forall k | 0 <= k < |tail| ensures tail[k].id != locales[0].id {
          assert tail[k] in locales[1..];
          var m :| 0 <= m < |locales[1..]| && locales[1..][m] == tail[k];
          assert locales[1..][m] == locales[m + 1];
        }
        ConsDistinct(locales[0], tail);
        assert WithoutLocal(locales, localId) == [locales[0]] + tail;
      } else {
        assert WithoutLocal(locales, localId) == tail;
      }
    }
  }

  /** The in-memory `Locales` and `ImagenesLocales` tables, with the
      AUTO_INCREMENT counter of `Locales`. */
  class LocalesTable {
    var locales: seq<Local>
    var imagenes: seq<ImagenLocal>
    var nextId: nat

    ghost predicate Valid()
      reads this
    {
      TablesValid(locales, imagenes, nextId)
    }

    constructor ()
      ensures Valid() && locales == [] && imagenes == [] && nextId == 1
    {
      locales, imagenes, nextId := [], [], 1;
    }

    /** POST /registrarLocal. `contrato` and `imagenFiles` are the stored names of
        the files multer accepted under each field, in upload order. Multer
        refuses more than 10 images or more than one contract (answered 500);
        then a missing contract is answered 400 before `nombre` and
        `proveedorId` are looked at. On success one `Locales` row is added and one
        `ImagenesLocales` row per image, in upload order; no image row when
        there is no image. */
    method RegistrarLocal(nombre: Option<string>, proveedorId: Option<nat>, contrato: seq<string>,
                          imagenFiles: seq<string>, origin: string)
      returns (resp: RegistrarResponse)
      requires Valid()
      modifies this
      ensures Valid()
      ensures |imagenFiles| > 10 || |contrato| > 1 ==> resp == UploadRejected && unchanged(this)
      ensures |imagenFiles| <= 10 && contrato == [] ==> resp == MissingContract && unchanged(this)
      ensures |imagenFiles| <= 10 && |contrato| == 1 && (!Truthy(nombre) || proveedorId.None?) ==>
        resp == MissingFields && unchanged(this)
      ensures RegistrarAccepts(nombre, proveedorId, contrato, imagenFiles) ==>
        var id, contratoUrl := old(nextId), LocalFileUrl(origin, contrato[0]);
        var urls := LocalFileUrls(origin, imagenFiles);
        && locales == old(locales) + [Local(id, nombre.value, None, proveedorId.value, contratoUrl, None)]
        && imagenes == old(imagenes) + ImageRows(id, urls)
        && nextId == id + 1
        && resp == if imagenFiles == [] then RegisteredWithoutImages(id, contratoUrl)
                   else RegisteredWithImages(id, urls, contratoUrl)
      ensures RegistrarAccepts(nombre, proveedorId, contrato, imagenFiles) && !ContainsSeparator(origin)
              && (forall k :: 0 <= k < |imagenFiles| ==> !ContainsSeparator(imagenFiles[k])) ==>
        LocalInfo(locales, imagenes, old(nextId)) ==
          Some(LocalView(old(nextId), nombre.value, None, LocalFileUrl(origin, contrato[0]), None,
                         proveedorId.value, LocalFileUrls(origin, imagenFiles)))
    {
      if |imagenFiles| > 10 || |contrato| > 1 {
        return UploadRejected;
      }
      if contrato == [] {
        return MissingContract;
      }
      if !Truthy(nombre) || proveedorId.None? {
        return MissingFields;
      }
      var contratoUrl := LocalFileUrl(origin, contrato[0]);
      var id := nextId;
      var local := Local(id, nombre.value, None, proveedorId.value, contratoUrl, None);
      var urls := LocalFileUrls(origin, imagenFiles);
      var rows := ImageRows(id, urls);
      RegisterKeepsValid(locales, imagenes, nextId, local, rows);
      FreshIdUnused(locales, imagenes, nextId);
      if !ContainsSeparator(origin) && forall k :: 0 <= k < |imagenFiles| ==> !ContainsSeparator(imagenFiles[k]) {
        FileUrlsNoSeparator(origin, imagenFiles);
        RegisteredLocalReadsBack(locales, imagenes, local, urls);
      }
      locales := locales + [local];
      nextId := nextId + 1;
      if imagenFiles == [] {
        assert imagenes + rows == imagenes;
        return RegisteredWithoutImages(id, contratoUrl);
      }
      imagenes := imagenes + rows;
      resp := RegisteredWithImages(id, urls, contratoUrl);
    }

    /** PUT /actualizar_local/:localId. A missing or empty `direccion` is answered
        400 and nothing changes. Otherwise the statement is built, the local's
        address (and its PDF URL when a PDF was uploaded) is set, and the answer
        is 200 even when no local has that id. */
    method ActualizarLocal(localId: nat, direccion: Option<string>, pdfFile: Option<string>, origin: string)
      returns (resp: UpdateResponse)
      requires Valid()
      modifies this
      ensures Valid()
      ensures !Truthy(direccion) ==> resp == MissingAddress && unchanged(this)
      ensures Truthy(direccion) ==>
        var pdfUrl := if pdfFile.Some? then Some(PdfFileUrl(origin, pdfFile.value)) else None;
        && resp.Updated? && resp.pdfUrl == pdfUrl
        && resp.query == UpdateQuery(pdfFile.Some?)
        && Placeholders(resp.query) == |resp.params|
        && resp.params == UpdateParams(direccion.value, pdfUrl, localId)
        && locales == SetAddress(old(locales), localId, direccion.value, pdfUrl)
        && imagenes == old(imagenes) && nextId == old(nextId)
      ensures FindLocal(old(locales), localId).None? ==> locales == old(locales)
    {
      if !Truthy(direccion) {
        return MissingAddress;
      }
      var pdfUrl: Option<string> := None;
      if pdfFile.Some? {
        pdfUrl := Some(PdfFileUrl(origin, pdfFile.value));
        PdfFileUrlNotEmpty(origin, pdfFile.value);
      }
      var query, params := BuildLocalUpdate(direccion.value, pdfUrl, localId);
      SetAddressKeepsValid(locales, imagenes, nextId, localId, direccion.value, pdfUrl);
      locales := SetAddress(locales, localId, direccion.value, pdfUrl);
      resp := Updated(pdfUrl, query, params);
    }

    /** DELETE /eliminarLocal/:localId. Returns the image URLs it read (the files it
        then tries to unlink), deletes that local's image rows and then the
        local. Every other local reads back as before. */
    method EliminarLocal(localId: nat) returns (urls: seq<string>)
      requires Valid()
      modifies this
      ensures Valid()
      ensures urls == UrlsOf(old(imagenes), localId)
      ensures imagenes == WithoutImagesOf(old(imagenes), localId)
      ensures locales == WithoutLocal(old(locales), localId)
      ensures nextId == old(nextId)
      ensures LocalInfo(locales, imagenes, localId).None?
      ensures forall other :: other != localId ==>
        LocalInfo(locales, imagenes, other) == LocalInfo(old(locales), old(imagenes), other)
    {
      DeleteKeepsValid(locales, imagenes, nextId, localId);
      urls := UrlsOf(imagenes, localId);
      imagenes := WithoutImagesOf(imagenes, localId);
      locales := WithoutLocal(locales, localId);
    }
  }

  /** The paths the corrected deletion unlinks for the image URLs it read: one
      per URL, in order, each from the URL's last segment. */
  function UnlinkPaths(urls: seq<string>): (paths: seq<string>)
    ensures |paths| == |urls|
    ensures forall k :: 0 <= k < |urls| ==> paths[k] == UnlinkPath(urls[k])
  {
    if urls == [] then [] else [UnlinkPath(urls[0])] + UnlinkPaths(urls[1..])
  }

  lemma CleanupTargetsStoredFiles(origin: string, filenames: seq<string>)
    requires forall k :: 0 <= k < |filenames| ==> '/' !in filenames[k]
    ensures var paths := UnlinkPaths(LocalFileUrls(origin, filenames));
      |paths| == |filenames| && forall k :: 0 <= k < |filenames| ==> paths[k] == StoredPath(filenames[k])
  {
    forall k | 0 <= k < |filenames|
      ensures UnlinkPath(LocalFileUrl(origin, filenames[k])) == StoredPath(filenames[k])
    {
      UnlinkPathFindsFile(origin, filenames[k]);
    }
  }
}
