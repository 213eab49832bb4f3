/** The application shell (App.tsx): loading the client sheet, falling back to the stored
    snapshot, and choosing between the loading screen, the error screen and the map. */
module App {
  import opened Types
  import CsvHelper

  /** The outcome of one `fetch` followed by `response.text()`. */
  datatype Fetch = Throws | NotOk | Ok(body: string)

  /** What `localStorage.getItem('chr_gt_clients')` holds: text that `JSON.parse` turns back into
      a client list, or any other text (on which `JSON.parse` throws). */
  datatype Stored = Json(clients: seq<Client>) | Corrupt(text: string)

  const CacheKey: string := "chr_gt_clients"

  const NotConfiguredMsg: string := "L'URL Google Sheet n'est pas configurée."
  const CorruptCacheMsg: string := "Impossible de charger les données (Erreur réseau + Cache vide)."
  const NoConnectionMsg: string := "Impossible de charger les données (Vérifiez votre connexion)."

  /** `text` after the direct attempt: the body of an ok response, else still empty. */
  function DirectText(direct: Fetch): (text: string)
    ensures text != "" ==> direct == Ok(text)
  {
    if direct.Ok? then direct.body else ""
  }

  /** `!text || text.length < 50`: the direct text is too short to be the sheet. */
  predicate NeedsProxy(text: string) {
    text == "" || |text| < 50
  }

  /** The text handed to the parser, or `None` when the attempts end in an exception. */
  function SheetText(direct: Fetch, proxy: Fetch): (r: Option<string>)
    ensures r.Some? ==> (direct.Ok? && r.value == direct.body) || (proxy.Ok? && r.value == proxy.body)
  {
    var text := DirectText(direct);
    if !NeedsProxy(text) then Some(text)
    else if proxy.Ok? then Some(proxy.body)
    else None
  }

  /** A direct answer of at least 50 characters is used as it is and the proxy is not needed. */
  lemma LongDirectAnswerWins(body: string, proxy: Fetch, proxy': Fetch)
    requires |body| >= 50
    ensures SheetText(Ok(body), proxy) == SheetText(Ok(body), proxy') == Some(body)
  {
  }

  /** Otherwise the text comes from the proxy alone: a thrown or failed direct attempt and a short
      direct answer behave alike, and only an ok proxy answer avoids the fallback. */
  lemma ShortDirectAnswerUsesProxy(direct: Fetch, proxy: Fetch)
    requires NeedsProxy(DirectText(direct))
    ensures SheetText(direct, proxy) == (if proxy.Ok? then Some(proxy.body) else None)
    ensures SheetText(direct, proxy) == SheetText(Throws, proxy)
  {
  }

  /** The cache fallback: a snapshot to restore, or the error message to show. */
  datatype Recovery = Restore(clients: seq<Client>) | Report(message: string)

  /** `if (cachedData)` then `JSON.parse`, else the connection message; an empty stored string
      counts as missing. */
  function Recover(cached: Option<Stored>): (r: Recovery)
    ensures r.Restore? <==> cached.Some? && cached.value.Json?
    ensures r.Restore? ==> r.clients == cached.value.clients
    ensures r == Report(CorruptCacheMsg) <==> cached.Some? && cached.value.Corrupt? && cached.value.text != ""
    ensures r == Report(NoConnectionMsg) <==> cached == None || cached == Some(Corrupt(""))
  {
    match cached
    case None => Report(NoConnectionMsg)
    case Some(Json(cs)) => Restore(cs)
    case Some(Corrupt(t)) => if t == "" then Report(NoConnectionMsg) else Report(CorruptCacheMsg)
  }

  /** `localStorage.getItem('chr_gt_clients')`. */
  function Cached(storage: map<string, Stored>): (r: Option<Stored>)
    ensures r.Some? <==> CacheKey in storage
  {
    if CacheKey in storage then Some(storage[CacheKey]) else None
  }

  /** The three things the component can render before the map. */
  datatype Screen = Loading | Failure(message: string) | MapView

  /** `if (isLoading && clients.length === 0)` and then `if (errorMsg && clients.length === 0)`. */
  function ScreenOf(isLoading: bool, errorMsg: Option<string>, clients: seq<Client>): (s: Screen)
    ensures |clients| > 0 ==> s == MapView
    ensures s == Loading <==> isLoading && clients == []
    ensures s.Failure? ==> errorMsg == Some(s.message) && s.message != "" && !isLoading
  {
    if isLoading && |clients| == 0 then Loading
    else if errorMsg.Some? && errorMsg.value != "" && |clients| == 0 then Failure(errorMsg.value)
    else MapView
  }

  /** The state of the component that loading touches, and the browser's storage. */
  class AppState {
    var clients: seq<Client>
    var isOfflineMode: bool
    var isLoading: bool
    var errorMsg: Option<string>
    var storage: map<string, Stored>

    /** The first render: no clients, loading, no error; `storage` is what the browser kept. */
    constructor (storage: map<string, Stored>)
      ensures clients == [] && !isOfflineMode && isLoading && errorMsg == None
      ensures this.storage == storage
      ensures Screen() == Loading
    {
      clients := [];
      isOfflineMode := false;
      isLoading := true;
      errorMsg := None;
      this.storage := storage;
    }

    function Screen(): Screen
      reads this
    {
      ScreenOf(isLoading, errorMsg, clients)
    }

    /** The first two updates of every load: loading, and no error. */
    method BeginLoad()
      modifies this
      ensures isLoading && errorMsg == None
      ensures clients == old(clients) && isOfflineMode == old(isOfflineMode) && storage == old(storage)
      ensures clients == [] ==> Screen() == Loading
    {
      isLoading := true;
      errorMsg := None;
    }

    /** The catch block: restore the snapshot, or report why there is none. */
    method FallBack()
      modifies this
      ensures Recover(Cached(old(storage))).Restore? ==>
                clients == Recover(Cached(old(storage))).clients && isOfflineMode && errorMsg == old(errorMsg)
      ensures Recover(Cached(old(storage))).Report? ==>
                errorMsg == Some(Recover(Cached(old(storage))).message)
                && clients == old(clients) && isOfflineMode == old(isOfflineMode)
      ensures isLoading == old(isLoading) && storage == old(storage)
    {
      var cachedData := Cached(storage);
      if cachedData.Some? && cachedData.value != Corrupt("") {
        match cachedData.value
        case Json(cs) =>
          clients := cs;
          isOfflineMode := true;
        case Corrupt(_) =>
          errorMsg := Some(CorruptCacheMsg);
      } else {
        errorMsg := Some(NoConnectionMsg);
      }
    }

    /** `loadData`. `sheetUrl` is the configured sheet address, `direct` and `proxy` the outcomes
        of the two fetches, `saveOk` whether `localStorage.setItem` succeeds, `parseFloat` the
        number parser. `proxyTried` says whether the second fetch was made. */
    method LoadData(sheetUrl: string, direct: Fetch, proxy: Fetch, saveOk: bool,
                    parseFloat: string -> Option<real>)
      returns (proxyTried: bool)
      modifies this
      ensures !isLoading
      // Not configured: an error, no request, nothing else changes.
      ensures sheetUrl == "" ==>
                && errorMsg == Some(NotConfiguredMsg) && !proxyTried
                && clients == old(clients) && isOfflineMode == old(isOfflineMode)
                && storage == old(storage)
      // The proxy is asked exactly when the direct text is empty or short.
      ensures sheetUrl != "" ==> (proxyTried <==> NeedsProxy(DirectText(direct)))
      // Success: the parsed list is shown online and becomes the snapshot, even when empty.
      ensures sheetUrl != "" && SheetText(direct, proxy).Some? && saveOk ==>
                && clients == CsvHelper.ParsedRecords(SheetText(direct, proxy).value, parseFloat)
                && !isOfflineMode && errorMsg == None
                && storage == old(storage)[CacheKey := Json(clients)]
      // Failure, or a snapshot that could not be written: the fallback on the old snapshot,
      // after the parsed list (if any) was already shown.
      ensures sheetUrl != "" && (SheetText(direct, proxy).None? || !saveOk) ==>
                && storage == old(storage)
                && match Recover(Cached(old(storage)))
                   case Restore(cs) => clients == cs && isOfflineMode && errorMsg == None
                   case Report(m) =>
                     && errorMsg == Some(m)
                     && (if SheetText(direct, proxy).Some? then
                           clients == CsvHelper.ParsedRecords(SheetText(direct, proxy).value, parseFloat)
                           && !isOfflineMode
                         else clients == old(clients) && isOfflineMode == old(isOfflineMode))
    {
      BeginLoad();
      proxyTried := false;
      if sheetUrl == "" {
        errorMsg := Some(NotConfiguredMsg);
        isLoading := false;
        return;
      }
      var text;
      text, proxyTried := FetchSheet(direct, proxy);
      var parsed := None;
      if text.Some? {
        var parsedClients := CsvHelper.ParseCsv(text.value, parseFloat);
        parsed := Some(parsedClients);
      }
      Settle(parsed, saveOk);
      isLoading := false;
    }

    /** The rest of the `try` block and the `catch` block: `parsed` is the parsed list, or
        `None` when the attempts threw. A parsed list is shown online and saved; a failed
        attempt or save falls back on the stored snapshot. */
    method Settle(parsed: Option<seq<Client>>, saveOk: bool)
      modifies this
      ensures isLoading == old(isLoading)
      ensures parsed.Some? && saveOk ==>
                && clients == parsed.value && !isOfflineMode && errorMsg == old(errorMsg)
                && storage == old(storage)[CacheKey := Json(clients)]
      ensures parsed.None? || !saveOk ==>
                && storage == old(storage)
                && match Recover(Cached(old(storage)))
                   case Restore(cs) => clients == cs && isOfflineMode && errorMsg == old(errorMsg)
                   case Report(m) =>
                     && errorMsg == Some(m)
                     && (if parsed.Some? then clients == parsed.value && !isOfflineMode
                         else clients == old(clients) && isOfflineMode == old(isOfflineMode))
    {
      var failed := parsed.None?;
      if parsed.Some? {
        clients := parsed.value;
        isOfflineMode := false;
        if saveOk {
          storage := storage[CacheKey := Json(parsed.value)];
        } else {
          failed := true;
        }
      }
      if failed {
        FallBack();
      }
    }
  }

  /** The two attempts: the direct fetch, then the proxy when the direct text is empty or
      short. `None` stands for the exception that a failed proxy attempt raises. */
  method FetchSheet(direct: Fetch, proxy: Fetch) returns (text: Option<string>, proxyTried: bool)
    ensures text == SheetText(direct, proxy)
    ensures proxyTried <==> NeedsProxy(DirectText(direct))
  {
    var t := "";
    if direct.Ok? {
      t := direct.body;
    }
    proxyTried := false;
    if t == "" || |t| < 50 {
      proxyTried := true;
      if !proxy.Ok? {
        return None, proxyTried;
      }
      t := proxy.body;
    }
    text := Some(t);
  }

  /** Once a load has finished, the loading screen is gone: the error screen shows the message
      exactly when there is one and no client, and the map shows otherwise. */
  lemma ScreenAfterLoad(errorMsg: Option<string>, clients: seq<Client>)
    requires errorMsg.Some? ==> errorMsg.value != ""
    ensures ScreenOf(false, errorMsg, clients) != Loading
    ensures ScreenOf(false, errorMsg, clients).Failure? <==> errorMsg.Some? && clients == []
  {
  }

  /** Every message `loadData` can set is non-empty, so it always reaches the error screen when
      no client is loaded; the two fallback messages tell the cases apart. */
  lemma MessagesShown(cached: Option<Stored>)
    ensures Recover(cached).Report? ==>
              ScreenOf(false, Some(Recover(cached).message), []) == Failure(Recover(cached).message)
    ensures ScreenOf(false, Some(NotConfiguredMsg), []) == Failure(NotConfiguredMsg)
    ensures CorruptCacheMsg != NoConnectionMsg
  {
    assert |CorruptCacheMsg| != |NoConnectionMsg|;
  }
}
