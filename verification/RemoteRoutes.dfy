/** How the management API reads the cloud's ingress table
    (internal/tunnel/api_routes.go). */
module RemoteRoutes {
  import opened Wrappers
  import opened JsonDocs
  import opened Ingress

  /** What URL parsing reports about a service; it fails on malformed text. */
  datatype ParsedUrl = ParsedUrl(scheme: string, hasUser: bool, withoutUser: string)

  /** What the decoders make of a row: how a service parses as a URL, and which member
      of an origin request stands for noTLSVerify. JSON decoding takes any letter case
      of that key and, of several, the last in the document that holds a boolean. */
  datatype Reader = Reader(url: string -> Option<ParsedUrl>, tlsKey: Object -> string)

  datatype View = View(
    rawService: string,
    hostname: string,
    service: string,
    path: string,
    editable: bool,
    skipTLSVerify: bool)

  function BoolAt(o: Object, key: string): bool {
    key in o && o[key].JBool? && o[key].b
  }

  function SkipsTLS(reader: Reader, origin: Object): bool {
    BoolAt(origin, reader.tlsKey(origin))
  }

  function ViewOf(reader: Reader, row: Json): View {
    var raw, skip := Service(row), SkipsTLS(reader, ObjectAt(Members(row), "originRequest"));
    match reader.url(raw)
    case None => View(raw, Host(row), raw, Path(row), false, skip)
    case Some(u) =>
      var web := (u.scheme == "http" || u.scheme == "https") && Host(row) != "" && Path(row) == "";
      if u.hasUser then View(raw, Host(row), u.withoutUser, Path(row), false, skip)
      else View(raw, Host(row), raw, Path(row), web, skip)
  }

  /** The rows as they are shown: the error of decoding the table is ignored. What is
      not a list has no rows, and a member of the list that is not an object is shown as
      an empty row, among the others as they are. */
  function RowsOf(config: Object): Rows {
    if "ingress" in config && config["ingress"].JArr? then config["ingress"].items else []
  }

  function Views(reader: Reader, rows: Rows): seq<View> {
    seq(|rows|, i requires 0 <= i < |rows| => ViewOf(reader, rows[i]))
  }

  method RemoteRouteViews(reader: Reader, config: Object) returns (out: seq<View>)
    ensures out == Views(reader, RowsOf(config))
  {
    var rows := RowsOf(config);
    out := [];
    for i := 0 to |rows|
      invariant |out| == i && forall j :: 0 <= j < i ==> out[j] == ViewOf(reader, rows[j])
    {
      var row, raw := rows[i], Service(rows[i]);
      var origin := ObjectAt(Members(row), "originRequest");
      var view := View(raw, Host(row), raw, Path(row), false, SkipsTLS(reader, origin));
      var u := reader.url(raw);
      if u.Some? {
        view := view.(editable := (u.value.scheme == "http" || u.value.scheme == "https")
                                  && view.hostname != "" && view.path == "" && !u.value.hasUser);
        if u.value.hasUser {
          view := view.(service := u.value.withoutUser, editable := false);
        }
      }
      out := out + [view];
    }
    assert out == Views(reader, rows);
  }

  /** What is shown of a row: its hostname and path; its service, without credentials where
      it is a URL that has some; that it can be edited, when it is an HTTP or HTTPS service
      without credentials for a hostname without a path; and its noTLSVerify option. */
  lemma ViewSays(reader: Reader, row: Json)
    ensures var v, origin := ViewOf(reader, row), ObjectAt(Members(row), "originRequest");
            var url := reader.url(StringAt(Members(row), "service"));
            && v.hostname == StringAt(Members(row), "hostname") && v.path == StringAt(Members(row), "path")
            && v.rawService == StringAt(Members(row), "service")
            && v.service == (if url.Some? && url.value.hasUser then url.value.withoutUser else v.rawService)
            && (v.editable <==> && url.Some? && url.value.scheme in {"http", "https"} && !url.value.hasUser
                                && v.hostname != "" && v.path == "")
            && (v.skipTLSVerify <==> reader.tlsKey(origin) in origin && origin[reader.tlsKey(origin)] == JBool(true))
  {
  }
}
