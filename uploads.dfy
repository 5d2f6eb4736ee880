/**
 * Where uploaded files go and what they are called (multer's `destination`
 * and `filename` callbacks, server.js:17-33), the caption of an uploaded
 * photo (server.js:358) and the path recorded for a stored file
 * (`path.relative(__dirname, arquivo.path)`, server.js:359 and :388).
 */
module Uploads {
  import opened Wrappers
  import Text

  /** The characters `/[^a-zA-Z0-9\.\-_]/` leaves alone. */
  predicate Allowed(c: char) {
    ('a' <= c <= 'z') || ('A' <= c <= 'Z') || ('0' <= c <= '9') || c == '.' || c == '-' || c == '_'
  }

  /** `originalname.replace(/[^a-zA-Z0-9\.\-_]/g, '_')`. */
  function Sanitize(name: string): (r: string)
    ensures |r| == |name|
    ensures forall i :: 0 <= i < |r| ==> Allowed(r[i])
    ensures forall i :: 0 <= i < |r| ==> (Allowed(name[i]) <==> r[i] == name[i])
  {
    seq(|name|, i requires 0 <= i < |name| => if Allowed(name[i]) then name[i] else '_')
  }

  /** Sanitising a sanitised name changes nothing. */
  lemma SanitizeIdempotent(name: string)
    ensures Sanitize(Sanitize(name)) == Sanitize(name)
  {
  }

  /** `` `${timestamp}-${sanitized}` ``: the stored file name, given the clock reading `Date.now()`. */
  function StoredFilename(timestamp: nat, original: string): (r: string)
    ensures |r| == |Text.Decimal(timestamp)| + 1 + |original|
    ensures forall i :: 0 <= i < |r| ==> Allowed(r[i])
  {
    Text.Decimal(timestamp) + "-" + Sanitize(original)
  }

  /** A stored name never holds a path separator, so it names a file inside the upload directory. */
  lemma StoredFilenameHasNoSeparator(timestamp: nat, original: string)
    ensures '/' !in StoredFilename(timestamp, original)
    ensures '\\' !in StoredFilename(timestamp, original)
  {
    var r := StoredFilename(timestamp, original);
    assert forall i :: 0 <= i < |r| ==> r[i] != '/' && r[i] != '\\';
  }

  /** The timestamp can be read back from the stored name: it is everything before the first `-`. */
  lemma StoredFilenameTimestamp(timestamp: nat, original: string)
    ensures Text.Split(StoredFilename(timestamp, original), '-')[0] == Text.Decimal(timestamp)
    ensures Text.DigitsValue(Text.Decimal(timestamp)) == timestamp
  {
    var d := Text.Decimal(timestamp);
    NoDashInDecimal(timestamp);
    var rest := "-" + Sanitize(original);
    assert StoredFilename(timestamp, original) == d + rest;
    Text.SplitFirstPiece(d, rest, '-');
    Text.DecimalValue(timestamp);
  }

  lemma NoDashInDecimal(n: nat)
    ensures '-' !in Text.Decimal(n)
  {
    var d := Text.Decimal(n);
    assert forall i :: 0 <= i < |d| ==> d[i] != '-';
  }

  /** `a || b` over request fields that may be absent: the first one that is a non-empty string. */
  function FirstGiven(a: Option<string>, b: Option<string>): (r: Option<string>)
    ensures r.Some? ==> r.value != ""
    ensures r.None? <==> (a.None? || a.value == "") && (b.None? || b.value == "")
  {
    if a.Some? && a.value != "" then a
    else if b.Some? && b.value != "" then b
    else None
  }

  datatype UploadError = MissingControle | MissingReportId | MissingFile | UnsafeDirectory

  /**
   * multer's `destination`: the directory segments below the server root,
   * `uploads/<controle>/<tipo>`; each field is read from the form body first,
   * then from the query string.
   */
  function Destination(bodyControle: Option<string>, queryControle: Option<string>,
                       bodyTipo: Option<string>, queryTipo: Option<string>): (r: Result<seq<string>, UploadError>)
    ensures r.Err? <==> FirstGiven(bodyControle, queryControle).None?
    ensures r.Err? ==> r.error == MissingControle
    ensures r.Ok? ==> |r.value| == 3 && r.value[0] == "uploads"
    ensures r.Ok? ==> r.value[1] == FirstGiven(bodyControle, queryControle).value
    ensures r.Ok? ==> r.value[2] != ""
    ensures r.Ok? && FirstGiven(bodyTipo, queryTipo).None? ==> r.value[2] == "outros"
    ensures r.Ok? && FirstGiven(bodyTipo, queryTipo).Some? ==> r.value[2] == FirstGiven(bodyTipo, queryTipo).value
  {
    match FirstGiven(bodyControle, queryControle)
    case None => Err(MissingControle)
    case Some(controle) =>
      var tipo := match FirstGiven(bodyTipo, queryTipo) case Some(t) => t case None => "outros";
      Ok(["uploads", controle, tipo])
  }

  /**
   * A directory as `path.join` normalises it (POSIX separators): how many
   * levels it climbs above the base directory, then the names below it.
   */
  datatype Resolved = Resolved(ups: nat, names: seq<string>)

  /** One piece of a path: empty pieces and `.` vanish, `..` drops the last name (or climbs above the base). */
  function Step(acc: Resolved, piece: string): Resolved {
    if piece == "" || piece == "." then acc
    else if piece == ".." then
      if acc.names == [] then Resolved(acc.ups + 1, []) else Resolved(acc.ups, acc.names[..|acc.names| - 1])
    else Resolved(acc.ups, acc.names + [piece])
  }

  function Walk(acc: Resolved, pieces: seq<string>): Resolved
    decreases |pieces|
  {
    if pieces == [] then acc else Walk(Step(acc, pieces[0]), pieces[1..])
  }

  /** The pieces `path.join` works on: every segment split at `/`. */
  function Pieces(segments: seq<string>): seq<string> {
    if segments == [] then [] else Text.Split(segments[0], '/') + Pieces(segments[1..])
  }

  /** `path.join(base, ...segments)`, relative to `base`. */
  function Resolve(segments: seq<string>): Resolved {
    Walk(Resolved(0, []), Pieces(segments))
  }

  /** The directory lies inside `uploads`, the only directory served as uploaded files. */
  predicate InsideUploads(r: Resolved) {
    r.ups == 0 && |r.names| >= 1 && r.names[0] == "uploads"
  }

  /** A directory name `path.join` leaves as it is: no separator, not empty, not `.` or `..`. */
  predicate SafeSegment(name: string) {
    name != "" && name != "." && name != ".." && '/' !in name && '\\' !in name
  }

  /**
   * `destination` as written takes `controle` from the request unchecked:
   * `controle = "../<name>"` puts the upload in `<name>/outros`, beside
   * `uploads` rather than inside it.
   */
  lemma DestinationEscapes(name: string)
    requires SafeSegment(name) && name != "uploads"
    ensures Destination(Some("../" + name), None, None, None) == Ok(["uploads", "../" + name, "outros"])
    ensures Resolve(["uploads", "../" + name, "outros"]) == Resolved(0, [name, "outros"])
    ensures !InsideUploads(Resolve(["uploads", "../" + name, "outros"]))
  {
    SafeNames();
    ClimbResolve("uploads", name, "outros");
  }

  lemma SafeNames()
    ensures SafeSegment("uploads") && SafeSegment("outros")
  {
  }

  /** `base/../name/tipo` resolves to `name/tipo`: the climb cancels the base. */
  lemma ClimbResolve(base: string, name: string, tipo: string)
    requires SafeSegment(base) && SafeSegment(name) && SafeSegment(tipo)
    ensures Resolve([base, "../" + name, tipo]) == Resolved(0, [name, tipo])
  {
    var segments := [base, "../" + name, tipo];
    Pieces3(segments);
    SingleSplit(base);
    SingleSplit(tipo);
    ClimbSplit(name);
    var pieces := [base] + ["..", name] + [tipo];
    assert Pieces(segments) == pieces;
    EscapeWalk(base, name, tipo, pieces);
  }

  /** With `../public`, the upload lands in `public/outros`, inside the directory the server publishes as its web root (server.js:15). */
  lemma DestinationEscapesToPublic()
    ensures Destination(Some("../public"), None, None, None) == Ok(["uploads", "../public", "outros"])
    ensures Resolve(["uploads", "../public", "outros"]) == Resolved(0, ["public", "outros"])
  {
    assert "../" + "public" == "../public";
    DestinationEscapes("public");
  }

  lemma Pieces3(segments: seq<string>)
    requires |segments| == 3
    ensures Pieces(segments) ==
      Text.Split(segments[0], '/') + Text.Split(segments[1], '/') + Text.Split(segments[2], '/')
  {
    var rest := segments[1..];
    var last := rest[1..];
    assert last[1..] == [];
    assert Pieces(last) == Text.Split(segments[2], '/') + Pieces([]);
    assert Pieces(rest) == Text.Split(segments[1], '/') + Pieces(last);
  }

  lemma SingleSplit(name: string)
    requires '/' !in name
    ensures Text.Split(name, '/') == [name]
  {
    Text.SplitJoin([name], '/');
  }

  lemma ClimbSplit(name: string)
    requires '/' !in name
    ensures Text.Split("../" + name, '/') == ["..", name]
  {
    Text.SplitWithoutSep("..", "/" + name, '/');
    assert ".." + ("/" + name) == "../" + name;
    SingleSplit(name);
    assert ("/" + name)[1..] == name;
    assert Text.Split("/" + name, '/') == [""] + [name];
    assert ".." + "" == "..";
  }

  lemma EscapeWalk(base: string, name: string, tipo: string, pieces: seq<string>)
    requires SafeSegment(base) && SafeSegment(name) && SafeSegment(tipo)
    requires pieces == [base, "..", name, tipo]
    ensures Walk(Resolved(0, []), pieces) == Resolved(0, [name, tipo])
  {
    var a := Step(Resolved(0, []), base);
    assert a == Resolved(0, [base]);
    var b := Step(a, "..");
    assert b == Resolved(0, []);
    var c := Step(b, name);
    assert c == Resolved(0, [name]);
    var d := Step(c, tipo);
    assert d == Resolved(0, [name, tipo]);
    assert pieces[1..] == ["..", name, tipo];
    assert pieces[2..] == [name, tipo];
    assert pieces[3..] == [tipo];
    assert pieces[3..][1..] == [];
    calc {
      Walk(Resolved(0, []), pieces);
      Walk(a, pieces[1..]);
      { assert pieces[1..][1..] == pieces[2..]; }
      Walk(b, pieces[2..]);
      { assert pieces[2..][1..] == pieces[3..]; }
      Walk(c, pieces[3..]);
      Walk(d, []);
    }
  }

  /** Safe segments are their own pieces. */
  lemma {:induction false} SafePieces(segments: seq<string>)
    requires forall i :: 0 <= i < |segments| ==> '/' !in segments[i]
    ensures Pieces(segments) == segments
  {
    if segments != [] {
      SafePieces(segments[1..]);
      Text.SplitJoin([segments[0]], '/');
      assert segments == [segments[0]] + segments[1..];
    }
  }

  /** Walking safe names below a directory only appends them. */
  lemma {:induction false} WalkSafe(acc: Resolved, names: seq<string>)
    requires forall i :: 0 <= i < |names| ==> SafeSegment(names[i])
    ensures Walk(acc, names) == Resolved(acc.ups, acc.names + names)
    decreases |names|
  {
    if names != [] {
      assert SafeSegment(names[0]);
      WalkSafe(Step(acc, names[0]), names[1..]);
      assert acc.names + [names[0]] + names[1..] == acc.names + names;
    }
  }

  /** A path of safe names resolves to itself. */
  lemma ResolveSafe(segments: seq<string>)
    requires forall i :: 0 <= i < |segments| ==> SafeSegment(segments[i])
    ensures Resolve(segments) == Resolved(0, segments)
  {
    SafePieces(segments);
    WalkSafe(Resolved(0, []), segments);
  }

  /** `k` climbs, `../../…`. */
  function Climbs(k: nat): (r: seq<string>)
    ensures |r| == k && forall i :: 0 <= i < k ==> r[i] == ".."
  {
    if k == 0 then [] else [".."] + Climbs(k - 1)
  }

  /** The pieces of the normalised path from the server's directory to a file stored under `dir`. */
  function RelativePieces(dir: seq<string>, filename: string): seq<string> {
    var p := Resolve(dir + [filename]);
    Climbs(p.ups) + p.names
  }

  /**
   * `path.relative(__dirname, file.path)`, where multer's `file.path` is
   * `path.join(dir, filename)`: the normalised path, written with separator
   * `sep` (the empty string when it names the server's directory itself).
   */
  function RelativePath(dir: seq<string>, filename: string, sep: char): (r: string)
    ensures RelativePieces(dir, filename) == [] ==> r == ""
    ensures RelativePieces(dir, filename) != [] && sep == '/' ==>
      Text.Split(r, sep) == RelativePieces(dir, filename)
    ensures ((forall i :: 0 <= i < |dir| ==> SafeSegment(dir[i])) && SafeSegment(filename) &&
             (sep == '/' || sep == '\\')) ==>
      Text.Split(r, sep) == dir + [filename]
  {
    var parts := RelativePieces(dir, filename);
    RelativePiecesPlain(dir, filename);
    SafeRelativePieces(dir, filename);
    if parts == [] then "" else Text.Join(parts, sep)
  }

  /** No piece of a normalised path holds `/`, so the pieces split back from the joined path. */
  lemma RelativePiecesPlain(dir: seq<string>, filename: string)
    ensures RelativePieces(dir, filename) != [] ==>
      Text.Split(Text.Join(RelativePieces(dir, filename), '/'), '/') == RelativePieces(dir, filename)
  {
    var segments := dir + [filename];
    var p := Resolve(segments);
    PiecesPlain(segments);
    WalkPlain(Resolved(0, []), Pieces(segments));
    var parts := Climbs(p.ups) + p.names;
    if parts != [] {
      forall i | 0 <= i < |parts|
        ensures '/' !in parts[i]
      {
        if i >= p.ups {
          assert parts[i] == p.names[i - p.ups];
        }
      }
      Text.SplitJoin(parts, '/');
    }
  }

  /** Safe segments are the normalised path itself. */
  lemma SafeRelativePieces(dir: seq<string>, filename: string)
    ensures (forall i :: 0 <= i < |dir| ==> SafeSegment(dir[i])) && SafeSegment(filename) ==>
      RelativePieces(dir, filename) == dir + [filename] &&
      forall sep :: sep == '/' || sep == '\\' ==>
        Text.Split(Text.Join(dir + [filename], sep), sep) == dir + [filename]
  {
    var segments := dir + [filename];
    if (forall i :: 0 <= i < |dir| ==> SafeSegment(dir[i])) && SafeSegment(filename) {
      forall i | 0 <= i < |segments|
        ensures SafeSegment(segments[i])
      {
        if i < |dir| {
          assert segments[i] == dir[i];
        }
      }
      ResolveSafe(segments);
      assert Climbs(0) + segments == segments;
      forall sep | sep == '/' || sep == '\\'
        ensures Text.Split(Text.Join(segments, sep), sep) == segments
      {
        Text.SplitJoin(segments, sep);
      }
    }
  }

  /** Every piece of a path is free of `/`. */
  lemma {:induction false} PiecesPlain(segments: seq<string>)
    ensures forall i :: 0 <= i < |Pieces(segments)| ==> '/' !in Pieces(segments)[i]
  {
    if segments != [] {
      PiecesPlain(segments[1..]);
      var head := Text.Split(segments[0], '/');
      var tail := Pieces(segments[1..]);
      assert Pieces(segments) == head + tail;
      forall i | 0 <= i < |head + tail|
        ensures '/' !in (head + tail)[i]
      {
        if i >= |head| {
          assert (head + tail)[i] == tail[i - |head|];
        }
      }
    }
  }

  /** Walking pieces free of `/` leaves names free of `/`. */
  lemma {:induction false} WalkPlain(acc: Resolved, pieces: seq<string>)
    requires forall i :: 0 <= i < |acc.names| ==> '/' !in acc.names[i]
    requires forall i :: 0 <= i < |pieces| ==> '/' !in pieces[i]
    ensures forall i :: 0 <= i < |Walk(acc, pieces).names| ==> '/' !in Walk(acc, pieces).names[i]
    decreases |pieces|
  {
    if pieces != [] {
      var next := Step(acc, pieces[0]);
      assert forall i :: 0 <= i < |next.names| ==> '/' !in next.names[i] by {
        forall i | 0 <= i < |next.names|
          ensures '/' !in next.names[i]
        {
          if i < |acc.names| {
            assert next.names[i] == acc.names[i];
          }
        }
      }
      WalkPlain(next, pieces[1..]);
    }
  }

  /**
   * `controle = ".."`, which `destination` accepts, stores the file in
   * `outros` beside `uploads`, and the recorded path is `outros/<file>`.
   */
  lemma RelativePathNormalises(filename: string)
    requires SafeSegment(filename)
    ensures Destination(Some(".."), None, None, None) == Ok(["uploads", "..", "outros"])
    ensures RelativePath(["uploads", "..", "outros"], filename, '/') == "outros/" + filename
  {
    SafeNames();
    ClimbRelative("uploads", "outros", filename);
    assert Text.Join(["outros", filename], '/') == "outros" + "/" + filename;
  }

  /** The file stored under `base/../tipo` is recorded as `tipo/<file>`. */
  lemma ClimbRelative(base: string, tipo: string, filename: string)
    requires SafeSegment(base) && SafeSegment(tipo) && SafeSegment(filename)
    ensures RelativePieces([base, "..", tipo], filename) == [tipo, filename]
  {
    var segments := [base, "..", tipo] + [filename];
    assert segments == [base, "..", tipo, filename];
    SafePieces(segments);
    EscapeWalk(base, tipo, filename, segments);
    assert Climbs(0) + [tipo, filename] == [tipo, filename];
  }


  /**
   * `destination` with `controle` and `tipo` each required to be a single safe
   * directory name: it agrees with `Destination` on every such request and
   * never stores a file outside `uploads`.
   */
  function CheckedDestination(bodyControle: Option<string>, queryControle: Option<string>,
                              bodyTipo: Option<string>, queryTipo: Option<string>): (r: Result<seq<string>, UploadError>)
    ensures r.Ok? ==> r == Destination(bodyControle, queryControle, bodyTipo, queryTipo)
    ensures r.Ok? ==> Resolve(r.value) == Resolved(0, r.value) && InsideUploads(Resolve(r.value))
    ensures r.Err? <==>
      Destination(bodyControle, queryControle, bodyTipo, queryTipo).Err? ||
      !SafeSegment(Destination(bodyControle, queryControle, bodyTipo, queryTipo).value[1]) ||
      !SafeSegment(Destination(bodyControle, queryControle, bodyTipo, queryTipo).value[2])
    ensures r.Err? && Destination(bodyControle, queryControle, bodyTipo, queryTipo).Ok? ==>
      r.error == UnsafeDirectory
    ensures Destination(bodyControle, queryControle, bodyTipo, queryTipo).Err? ==>
      r == Destination(bodyControle, queryControle, bodyTipo, queryTipo)
  {
    match Destination(bodyControle, queryControle, bodyTipo, queryTipo)
    case Err(e) => Err(e)
    case Ok(dir) =>
      if SafeSegment(dir[1]) && SafeSegment(dir[2]) then
        assert SafeSegment(dir[0]);
        ResolveSafe(dir);
        Ok(dir)
      else Err(UnsafeDirectory)
  }

  /** One part of a `multipart/form-data` body. */
  datatype FormPart = TextPart(name: string, value: string) | FilePart(field: string)

  /**
   * `req.body[name]` as multer has filled it when it reaches part `k`: fields
   * are parsed as they stream in, so only the text parts before `k` are there.
   */
  function FieldBefore(parts: seq<FormPart>, k: nat, name: string): (v: Option<string>)
    requires k <= |parts|
    ensures v.Some? ==> exists j :: 0 <= j < k && parts[j] == TextPart(name, v.value)
    ensures v.None? <==> forall j :: 0 <= j < k ==> !(parts[j].TextPart? && parts[j].name == name)
  {
    if k == 0 then None
    else if parts[0].TextPart? && parts[0].name == name then Some(parts[0].value)
    else
      var v := FieldBefore(parts[1..], k - 1, name);
      assert forall j :: 1 <= j < k ==> parts[1..][j - 1] == parts[j];
      v
  }

  /** `destination` for the file part `k`: the body fields before it, then the query string. */
  function DestinationAt(parts: seq<FormPart>, k: nat, query: map<string, string>): (r: Result<seq<string>, UploadError>)
    requires k < |parts| && parts[k].FilePart?
    ensures r.Err? <==>
      FirstGiven(FieldBefore(parts, k, "controle"), QueryField(query, "controle")).None?
    ensures r.Ok? ==> |r.value| == 3 && r.value[1] == FirstGiven(FieldBefore(parts, k, "controle"), QueryField(query, "controle")).value
  {
    Destination(FieldBefore(parts, k, "controle"), QueryField(query, "controle"),
                FieldBefore(parts, k, "tipo"), QueryField(query, "tipo"))
  }

  function QueryField(query: map<string, string>, name: string): Option<string> {
    if name in query then Some(query[name]) else None
  }

  /** A text part that `destination` does not read: neither `controle` nor `tipo`. */
  predicate OtherField(part: FormPart) {
    part.TextPart? ==> part.name != "controle" && part.name != "tipo"
  }

  /**
   * The parts `uploadFotos` appends: each photo, followed by its caption when
   * there is one (an empty caption is not sent), then `controle` and
   * `avaliacaoId`.
   */
  function PhotoForm(legendas: seq<string>, controle: string, avaliacaoId: string): seq<FormPart> {
    PhotoParts(legendas, 0) + [TextPart("controle", controle), TextPart("avaliacaoId", avaliacaoId)]
  }

  /** The photos from index `from` on, each with its caption part. */
  function PhotoParts(legendas: seq<string>, from: nat): (parts: seq<FormPart>)
    requires from <= |legendas|
    ensures |legendas| > from ==> |parts| >= 1 && parts[0] == FilePart("fotos")
    ensures forall j :: 0 <= j < |parts| ==> OtherField(parts[j])
    decreases |legendas| - from
  {
    if from == |legendas| then []
    else
      var caption := if legendas[from] != "" then [TextPart(CaptionKey(from), legendas[from])] else [];
      var rest := PhotoParts(legendas, from + 1);
      assert forall j :: 0 <= j < |caption| ==> OtherField(caption[j]);
      [FilePart("fotos")] + caption + rest
  }

  /**
   * Photo uploads from the client are refused: every photo comes before
   * `controle`, so when multer asks for its directory `req.body.controle` is
   * still unset, and the client sends no query string.
   */
  lemma PhotoUploadRefused(legendas: seq<string>, controle: string, avaliacaoId: string, k: nat)
    requires k < |PhotoForm(legendas, controle, avaliacaoId)|
    requires PhotoForm(legendas, controle, avaliacaoId)[k].FilePart?
    ensures DestinationAt(PhotoForm(legendas, controle, avaliacaoId), k, map[]) == Err(MissingControle)
  {
    var photos := PhotoParts(legendas, 0);
    var parts := PhotoForm(legendas, controle, avaliacaoId);
    assert k < |photos|;
    assert forall j :: 0 <= j < k ==> parts[j] == photos[j];
    assert FieldBefore(parts, k, "controle") == None;
  }

  /**
   * With `controle` appended before the photos, every photo is accepted into
   * `uploads/<controle>/outros`.
   */
  lemma CorrectedPhotoUploadAccepted(legendas: seq<string>, controle: string, avaliacaoId: string, k: nat)
    requires controle != ""
    requires k < |CorrectedPhotoForm(legendas, controle, avaliacaoId)|
    requires CorrectedPhotoForm(legendas, controle, avaliacaoId)[k].FilePart?
    ensures DestinationAt(CorrectedPhotoForm(legendas, controle, avaliacaoId), k, map[]) ==
      Ok(["uploads", controle, "outros"])
  {
    var photos := PhotoParts(legendas, 0);
    var parts := CorrectedPhotoForm(legendas, controle, avaliacaoId);
    assert k >= 2;
    assert forall j :: 2 <= j < |parts| ==> parts[j] == photos[j - 2];
    assert FieldBefore(parts, k, "controle") == Some(controle);
    assert FieldBefore(parts, k, "tipo") == None;
  }

  /** `uploadFotos` with the text fields appended before the photos. */
  function CorrectedPhotoForm(legendas: seq<string>, controle: string, avaliacaoId: string): seq<FormPart> {
    [TextPart("controle", controle), TextPart("avaliacaoId", avaliacaoId)] + PhotoParts(legendas, 0)
  }

  /** The parts `uploadDocumento` appends: the file, then `controle`, `avaliacaoId` and `tipo`. */
  function DocumentForm(controle: string, avaliacaoId: string, tipo: string): seq<FormPart> {
    [FilePart("documento"), TextPart("controle", controle), TextPart("avaliacaoId", avaliacaoId), TextPart("tipo", tipo)]
  }

  /** `uploadDocumento` with the text fields appended before the file. */
  function CorrectedDocumentForm(controle: string, avaliacaoId: string, tipo: string): seq<FormPart> {
    [TextPart("controle", controle), TextPart("avaliacaoId", avaliacaoId), TextPart("tipo", tipo), FilePart("documento")]
  }

  /** A document upload from the client is refused: its file is the first part. */
  lemma DocumentUploadRefused(controle: string, avaliacaoId: string, tipo: string)
    ensures DocumentForm(controle, avaliacaoId, tipo)[0].FilePart?
    ensures DestinationAt(DocumentForm(controle, avaliacaoId, tipo), 0, map[]) == Err(MissingControle)
  {
  }

  /** With the fields first, the document is accepted into `uploads/<controle>/<tipo>`. */
  lemma CorrectedDocumentUploadAccepted(controle: string, avaliacaoId: string, tipo: string)
    requires controle != "" && tipo != ""
    ensures CorrectedDocumentForm(controle, avaliacaoId, tipo)[3].FilePart?
    ensures DestinationAt(CorrectedDocumentForm(controle, avaliacaoId, tipo), 3, map[]) ==
      Ok(["uploads", controle, tipo])
  {
    var parts := CorrectedDocumentForm(controle, avaliacaoId, tipo);
    assert FieldBefore(parts, 3, "controle") == Some(controle);
    assert parts[2] == TextPart("tipo", tipo);
    assert FieldBefore(parts, 3, "tipo") == Some(tipo) by {
      assert parts[1..][1..][0] == TextPart("tipo", tipo);
    }
  }

  /** The form field that carries the caption of the `index`-th photo. */
  function CaptionKey(index: nat): (k: string)
    ensures |k| > 8 && k[0] == 'l'
  {
    "legenda_" + Text.Decimal(index)
  }

  /** `req.body[`legenda_${index}`] || arquivo.originalname`. */
  function Caption(body: map<string, string>, index: nat, originalname: string): (r: string)
    ensures CaptionKey(index) in body && body[CaptionKey(index)] != "" ==> r == body[CaptionKey(index)]
    ensures CaptionKey(index) !in body || body[CaptionKey(index)] == "" ==> r == originalname
  {
    var key := CaptionKey(index);
    if key in body && body[key] != "" then body[key] else originalname
  }
}
