/** The local helper server (server.js): the Google Translate relay behind
    `/api/translate`, and the file name under which `/api/backup` stores a
    backup. The HTTP request to Google is a parameter: for the i-th text the
    caller supplies what came back. */
module Server {
  import opened Wrappers
  import opened JsString

  // ---------------------------------------------------------------------------
  // translateString

  /** What the relay got back for one text. `Parsed(None)` is a body without a
      first element; `Parsed(Some(pieces))` carries the first column of each
      row of that element (`item[0]`). */
  datatype GoogleReply =
    | NotOk
    | Parsed(first: Option<seq<string>>)
    | Threw

  /** `translateString(text, target)`: "" for a blank text; the joined pieces
      of a well-formed answer; otherwise the text itself. */
  function TranslateString(text: string, reply: GoogleReply): (r: string)
    ensures Trim(text) == "" ==> r == ""
    ensures Trim(text) != "" && !(reply.Parsed? && reply.first.Some?) ==> r == text
    ensures Trim(text) != "" && reply.Parsed? && reply.first.Some? ==> r == Join(reply.first.value, "")
  {
    if text == "" || Trim(text) == "" then ""
    else match reply
      case NotOk => text
      case Threw => text
      case Parsed(first) => if first.Some? then Join(first.value, "") else text
  }

  /** A text is never lost: the answer is the text itself, or what the service
      put together, or nothing for a blank text; a failure of any kind hands the
      text back unchanged. */
  lemma TranslateStringFallsBack(text: string, reply: GoogleReply)
    ensures TranslateString(text, reply) == text
         || TranslateString(text, reply) == ""
         || (reply.Parsed? && reply.first.Some? && TranslateString(text, reply) == Join(reply.first.value, ""))
    ensures Trim(text) != "" && (reply.NotOk? || reply.Threw? || reply == Parsed(None)) ==>
      TranslateString(text, reply) == text
    ensures TranslateString(text, reply) == "" ==>
      Trim(text) == "" || (reply.Parsed? && reply.first.Some? && Join(reply.first.value, "") == "")
  {
  }

  // ---------------------------------------------------------------------------
  // /api/translate

  /** The `text` field of the request body: missing, one string, or an array. */
  datatype TextField = Missing | One(s: string) | Many(xs: seq<string>)

  datatype TranslateResponse =
    | BadRequest(error: string)
    | Translations(translations: seq<string>)

  /** `!text`: missing or the empty string; an array, even an empty one, is
      present. */
  predicate TextFalsy(text: TextField) {
    text.Missing? || text == One("")
  }

  /** `Array.isArray(text) ? text : [text]` */
  function Texts(text: TextField): (r: seq<string>)
    requires !text.Missing?
    ensures text.One? ==> r == [text.s]
    ensures text.Many? ==> r == text.xs
  {
    if text.One? then [text.s] else text.xs
  }

  /** The handler: a 400 for a missing text or target; otherwise one
      translation per text, requested one after the other (the 50 ms pause
      between requests is not modelled). */
  method TranslateRoute(text: TextField, target: Option<string>, reply: nat -> GoogleReply)
    returns (response: TranslateResponse)
    ensures TextFalsy(text) || target.None? || target.value == "" <==> response.BadRequest?
    ensures response.BadRequest? ==> response.error == "Missing data"
    ensures response.Translations? ==>
      && |response.translations| == |Texts(text)|
      && forall i | 0 <= i < |Texts(text)| :: response.translations[i] == TranslateString(Texts(text)[i], reply(i))
  {
    if TextFalsy(text) || target.None? || target.value == "" {
      return BadRequest("Missing data");
    }
    var texts := Texts(text);
    var results: seq<string> := [];
    var i := 0;
    while i < |texts|
      invariant 0 <= i <= |texts|
      invariant |results| == i
      invariant forall k | 0 <= k < i :: results[k] == TranslateString(texts[k], reply(k))
    {
      var translated := TranslateString(texts[i], reply(i));
      results := results + [translated];
      i := i + 1;
    }
    response := Translations(results);
  }

  // ---------------------------------------------------------------------------
  // /api/backup

  /** `[a-z0-9_\-\.]` under the `i` flag: the ASCII letters of either case,
      digits, `_`, `-` and `.`. */
  predicate SafeChar(c: char) {
    ('a' <= c <= 'z') || ('A' <= c <= 'Z') || ('0' <= c <= '9') || c == '_' || c == '-' || c == '.'
  }

  /** `.replace(/[^a-z0-9_\-\.]/gi, '_')` */
  function SanitizeFilename(name: string): (r: string)
    ensures |r| == |name|
    ensures forall i | 0 <= i < |r| :: SafeChar(r[i])
    ensures forall i | 0 <= i < |r| :: r[i] == (if SafeChar(name[i]) then name[i] else '_')
  {
    seq(|name|, i requires 0 <= i < |name| => if SafeChar(name[i]) then name[i] else '_')
  }

  /** Sanitising is idempotent, keeps a safe name as it is, and leaves no path
      separator; the dot segments `.` and `..` are safe characters and pass
      through. */
  lemma SanitizeFilenameSpec(name: string)
    ensures SanitizeFilename(SanitizeFilename(name)) == SanitizeFilename(name)
    ensures (forall i | 0 <= i < |name| :: SafeChar(name[i])) ==> SanitizeFilename(name) == name
    ensures '/' !in SanitizeFilename(name) && '\\' !in SanitizeFilename(name)
    ensures SanitizeFilename("..") == ".."
  {
    var r := SanitizeFilename(name);
    assert forall i | 0 <= i < |r| :: r[i] != '/' && r[i] != '\\';
  }

  /** `backup_${Date.now()}.json` */
  function DefaultBackupName(now: nat): string {
    "backup_" + NatToString(now) + ".json"
  }

  datatype BackupResponse = NoData | Saved(filename: string)

  /** The backup handler up to the write: a 400 without data; otherwise the
      sanitised name, or the timestamped default when no name was given. */
  function BackupFilename(hasData: bool, filename: Option<string>, now: nat): (r: BackupResponse)
    ensures !hasData <==> r == NoData
    ensures r.Saved? ==> forall i | 0 <= i < |r.filename| :: SafeChar(r.filename[i])
    ensures r.Saved? && filename.Some? && filename.value != "" ==> r.filename == SanitizeFilename(filename.value)
  {
    if !hasData then NoData
    else Saved(SanitizeFilename(if filename.Some? && filename.value != "" then filename.value else DefaultBackupName(now)))
  }

  /** The default name needs no sanitising: it is written as it is. */
  lemma DefaultBackupNameSafe(now: nat)
    ensures forall i | 0 <= i < |DefaultBackupName(now)| :: SafeChar(DefaultBackupName(now)[i])
    ensures BackupFilename(true, None, now) == Saved(DefaultBackupName(now))
    ensures BackupFilename(true, Some(""), now) == Saved(DefaultBackupName(now))
  {
    var d := DefaultBackupName(now);
    var digits := NatToString(now);
    forall i | 0 <= i < |d| ensures SafeChar(d[i]) {
      if 7 <= i < 7 + |digits| {
        assert d[i] == digits[i - 7];
      }
    }
    SanitizeFilenameSpec(d);
  }
}
