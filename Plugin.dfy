/** The plugin object and the host services it calls. The host is reduced to
    the state the two handlers read and change: the open documents, the
    key/value configuration store, and logs of the store writes, of the files
    handed to the host to open and of the error dialogs shown. */
module Plugin {
  import opened Connections
  import opened PathText
  import opened SaveList
  import opened ReopenList
  import opened ExitGuard

  /** The configuration key under which the list of open files is kept. */
  const ConfigKey: string := "ReloadLUF.LastUsedFiles"

  /** The two error dialogs: the list could not be loaded, or not saved. */
  datatype Dialog = LoadError | SaveError

  class Host {
    var documents: seq<Document>
    var config: map<string, string>
    var writes: seq<(string, string)>
    var openCalls: seq<IoConnection>
    var dialogs: seq<Dialog>

    constructor (documents: seq<Document>, config: map<string, string>)
      ensures this.documents == documents && this.config == config
      ensures writes == [] && openCalls == [] && dialogs == []
    {
      this.documents := documents;
      this.config := config;
      writes := [];
      openCalls := [];
      dialogs := [];
    }

    /** The stored value, or `None` when the key has none. */
    function GetString(key: string): (r: Option<string>)
      reads this
      ensures r.Some? <==> key in config
      ensures r.Some? ==> r.value == config[key]
    {
      if key in config then Some(config[key]) else None
    }

    /** Replaces the value stored under `key`. */
    method SetString(key: string, value: string)
      modifies this`config, this`writes
      ensures config == old(config)[key := value]
      ensures writes == old(writes) + [(key, value)]
    {
      config := config[key := value];
      writes := writes + [(key, value)];
    }

    /** Hands a connection to the host to open, without credentials and
        without asking the user. */
    method OpenDatabase(ioc: IoConnection)
      modifies this`openCalls
      ensures openCalls == old(openCalls) + [ioc]
    {
      openCalls := openCalls + [ioc];
    }

    method ShowError(dialog: Dialog)
      modifies this`dialogs
      ensures dialogs == old(dialogs) + [dialog]
    {
      dialogs := dialogs + [dialog];
    }
  }

  class ReloadLastUsedFiles {
    const host: Host
    var exiting: bool

    /** Loading the plugin: it keeps the host and starts with the guard clear. */
    constructor Initialize(host: Host)
      ensures this.host == host && !exiting
    {
      this.host := host;
      exiting := false;
    }

    /** Startup handler: reopens each remembered file that no open document
        already stands for. */
    method FormLoadPost(decode: string -> Option<seq<IoConnection>>)
      modifies host`openCalls, host`dialogs
      ensures var r := Startup(host.GetString(ConfigKey), host.documents, decode);
        host.openCalls == old(host.openCalls) + r.toOpen &&
        host.dialogs == old(host.dialogs) + (if r.failed then [LoadError] else [])
    {
      var xml := host.GetString(ConfigKey);
      if xml.Some? && xml.value != "" {
        var connections := decode(xml.value);
        if connections.None? {
          host.ShowError(LoadError);
        } else {
          ReopenSaved(connections.value);
        }
      }
    }

    /** The loop of the startup handler over the decoded entries. */
    method ReopenSaved(saved: seq<IoConnection>)
      modifies host`openCalls, host`dialogs
      ensures var r := Reopen(saved, host.documents);
        host.openCalls == old(host.openCalls) + r.toOpen &&
        host.dialogs == old(host.dialogs) + (if r.failed then [LoadError] else [])
    {
      var documents := host.documents;
      for i := 0 to |saved|
        invariant host.openCalls == old(host.openCalls) + Reopen(saved[..i], documents).toOpen
        invariant !Reopen(saved[..i], documents).failed
        invariant host.dialogs == old(host.dialogs)
      {
        var ioLastFile := saved[i];
        var cmpPath := Normalize(ioLastFile.path);
        var loaded := IsLoaded(documents, cmpPath);
        ReopenNext(saved, documents, i);
        if loaded == Failed {
          ReopenStopsAtFailure(saved, documents, i);
          host.ShowError(LoadError);
          return;
        }
        if loaded == NotLoaded {
          host.OpenDatabase(ioLastFile);
        }
      }
      assert saved[..|saved|] == saved;
    }

    /** Close handler: on the first close caused by the application exiting,
        sets the guard and then saves the list of open files. */
    method FileClosingPre(flags: bv32, encode: seq<IoConnection> -> Option<string>)
      modifies this`exiting, host`config, host`writes, host`dialogs
      ensures var r := OnClose(old(exiting), flags, host.documents, encode);
        exiting == r.exiting &&
        host.config == (if r.effect.Saved? then old(host.config)[ConfigKey := r.effect.xml]
                        else old(host.config)) &&
        host.writes == old(host.writes) + (if r.effect.Saved? then [(ConfigKey, r.effect.xml)] else []) &&
        host.dialogs == old(host.dialogs) + (if r.effect == SaveFailed then [SaveError] else [])
    {
      if flags & Exiting == Exiting && !exiting {
        exiting := true;
        var connections := CollectConnections(host.documents);
        match connections
        case None =>
          host.ShowError(SaveError);
        case Some(connectionArray) =>
          var xml := encode(connectionArray);
          match xml
          case None =>
            host.ShowError(SaveError);
          case Some(text) =>
            host.SetString(ConfigKey, text);
      }
    }
  }
}
