/**
  The round loop of `periodic_task`: the configuration is reloaded when
  the file's modification time changes, a failed reload keeps the old
  URL list and modification time, and only the first round runs without
  notifications.
*/
module Schedule {
  import opened Wrappers

  /** The value found under "monitor_urls" in the parsed configuration. */
  datatype UrlsField = Absent | OtherValue | ListValue(items: seq<string>)

  /** What reading the configuration file yields. */
  datatype ConfigFile = NotFound | BadJson | Parsed(monitorUrls: UrlsField)

  datatype ConfigError = FileMissing | SyntaxError | NotANonEmptyList

  datatype Loaded = Loaded(urls: seq<string>) | LoadFailed(error: ConfigError)

  /** `load_config`: the URL list, or the exception it raises. */
  function LoadConfig(config: ConfigFile): Loaded
  {
    match config
    case NotFound => LoadFailed(FileMissing)
    case BadJson => LoadFailed(SyntaxError)
    case Parsed(field) =>
      if field.ListValue? && field.items != [] then Loaded(field.items) else LoadFailed(NotANonEmptyList)
  }

  /**
    A configuration loads exactly when it parses and holds a non-empty
    list under "monitor_urls", which is returned as it is; every other
    content fails with the matching error.
  */
  lemma LoadConfigSpec(config: ConfigFile)
    ensures LoadConfig(config).Loaded? <==>
              config.Parsed? && config.monitorUrls.ListValue? && config.monitorUrls.items != []
    ensures LoadConfig(config).Loaded? ==>
              LoadConfig(config).urls == config.monitorUrls.items && |LoadConfig(config).urls| > 0
    ensures config.NotFound? ==> LoadConfig(config) == LoadFailed(FileMissing)
    ensures config.BadJson? ==> LoadConfig(config) == LoadFailed(SyntaxError)
  {
  }

  /** The configuration the loop holds between rounds. */
  datatype Watched = Watched(lastMtime: Option<int>, urls: seq<string>)

  /** The reload at the top of a round, for the modification time `currentMtime` and the file's content. */
  function Reloaded(w: Watched, currentMtime: Option<int>, config: ConfigFile): Watched
  {
    if currentMtime == w.lastMtime then w
    else match LoadConfig(config)
      case Loaded(urls) => Watched(currentMtime, urls)
      case LoadFailed(_) => w
  }

  /**
    A reload never leaves the loop without URLs; it takes the new list
    and modification time together or neither; and after a successful
    reload a round that sees the same modification time reads nothing.
  */
  lemma ReloadedSpec(w: Watched, currentMtime: Option<int>, config: ConfigFile, later: ConfigFile)
    requires w.urls != []
    ensures var r := Reloaded(w, currentMtime, config);
      && r.urls != []
      && (r.lastMtime == w.lastMtime ==> r.urls == w.urls)
      && (r.lastMtime != w.lastMtime ==> r.lastMtime == currentMtime && r.urls == LoadConfig(config).urls)
      && (r.lastMtime == currentMtime ==> Reloaded(r, currentMtime, later) == r)
  {
  }

  /**
    A failed reload is retried: the modification time is not advanced,
    so the next round that sees the same time reads the file again and
    takes its list if it now loads.
  */
  lemma FailedReloadRetried(w: Watched, currentMtime: Option<int>, bad: ConfigFile, good: ConfigFile)
    requires currentMtime != w.lastMtime
    requires LoadConfig(bad).LoadFailed?
    requires LoadConfig(good).Loaded?
    ensures Reloaded(w, currentMtime, bad) == w
    ensures Reloaded(Reloaded(w, currentMtime, bad), currentMtime, good) == Watched(currentMtime, LoadConfig(good).urls)
  {
  }

  /** The state `periodic_task` keeps across rounds. */
  class Scheduler {
    var firstRun: bool
    var lastMtime: Option<int>
    var monitorUrls: seq<string>

    /**
      The start of `periodic_task`: the modification time and the list
      read before the first round. A configuration that does not load
      ends the program there.
    */
    constructor (mtime: Option<int>, config: ConfigFile)
      requires LoadConfig(config).Loaded?
      ensures firstRun && lastMtime == mtime && monitorUrls == LoadConfig(config).urls
      ensures monitorUrls != []
    {
      lastMtime := mtime;
      monitorUrls := LoadConfig(config).urls;
      firstRun := true;
    }

    /**
      One round: the reload, then the URLs to fetch this round and
      whether their calls send notifications; after the round
      `first_run` is false.
    */
    method Round(currentMtime: Option<int>, config: ConfigFile) returns (sendNotifications: bool, urls: seq<string>)
      modifies this
      ensures Watched(lastMtime, monitorUrls) == Reloaded(Watched(old(lastMtime), old(monitorUrls)), currentMtime, config)
      ensures urls == monitorUrls
      ensures sendNotifications == !old(firstRun)
      ensures !firstRun
    {
      if currentMtime != lastMtime {
        var loaded := LoadConfig(config);
        if loaded.Loaded? {
          monitorUrls := loaded.urls;
          lastMtime := currentMtime;
        }
      }
      urls := monitorUrls;
      sendNotifications := !firstRun;
      firstRun := false;
    }
  }

  /**
    Rounds driven from the start, round `i` seeing modification time
    `mtimes[i]` and file content `configs[i]`: the notification flag is
    false for the first round and true for every later one, and the list
    fetched is never empty.
  */
  method Run(startMtime: Option<int>, startConfig: ConfigFile, mtimes: seq<Option<int>>, configs: seq<ConfigFile>)
    returns (flags: seq<bool>, fetched: seq<seq<string>>)
    requires LoadConfig(startConfig).Loaded?
    requires |mtimes| == |configs|
    ensures |flags| == |fetched| == |mtimes|
    ensures forall i :: 0 <= i < |flags| ==> flags[i] == (i > 0)
    ensures forall i :: 0 <= i < |fetched| ==> fetched[i] != []
  {
    var s := new Scheduler(startMtime, startConfig);
    flags, fetched := [], [];
    var i := 0;
    while i < |mtimes|
      invariant 0 <= i <= |mtimes| && |flags| == |fetched| == i
      invariant forall j :: 0 <= j < i ==> flags[j] == (j > 0)
      invariant forall j :: 0 <= j < i ==> fetched[j] != []
      invariant s.firstRun <==> i == 0
      invariant s.monitorUrls != []
    {
      ReloadedSpec(Watched(s.lastMtime, s.monitorUrls), mtimes[i], configs[i], configs[i]);
      var send, urls := s.Round(mtimes[i], configs[i]);
      flags, fetched := flags + [send], fetched + [urls];
      i := i + 1;
    }
  }
}
