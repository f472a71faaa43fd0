/**
  The checks loadConfig applies once the configuration file is decoded,
  and main's switch on the role. Only the fields these checks read are
  modelled: the role and the backup base path.
*/
module Settings {
  import opened Results

  const Publisher := "publisher"
  const Subscriber := "subscriber"

  /** The decoded fields that validation and dispatch look at. */
  datatype Config = Config(role: string, backupPath: string)

  /** The two errors loadConfig reports after decoding. */
  datatype ConfigError = InvalidRole(role: string) | MissingBackupPath

  /** A configuration main can run: a known role, and a backup path when subscribing. */
  predicate Runnable(cfg: Config) {
    (cfg.role == Publisher || cfg.role == Subscriber) &&
    (cfg.role == Subscriber ==> cfg.backupPath != "")
  }

  /**
    loadConfig after decoding: an empty role means publisher; any role other
    than publisher or subscriber is rejected; a subscriber needs a non-empty
    backup path.
  */
  function LoadConfig(role: string, backupPath: string): (r: Result<Config, ConfigError>)
    ensures r.Success? <==>
      role == "" || role == Publisher || (role == Subscriber && backupPath != "")
    ensures r.Success? ==> Runnable(r.value)
    ensures r.Success? ==> r.value == Config(if role == "" then Publisher else role, backupPath)
    ensures r == Failure(InvalidRole(role)) <==> role != "" && role != Publisher && role != Subscriber
    ensures r == Failure(MissingBackupPath) <==> role == Subscriber && backupPath == ""
  {
    var effective := if role == "" then Publisher else role;
    if effective != Publisher && effective != Subscriber then Failure(InvalidRole(effective))
    else if effective == Subscriber && backupPath == "" then Failure(MissingBackupPath)
    else Success(Config(effective, backupPath))
  }

  /** What main goes on to do. */
  datatype Launch =
    | RunPublisher(cfg: Config)
    | RunSubscriber(cfg: Config)
    | FailedToLoad(error: ConfigError)
    | UnknownRole(role: string)

  /**
    main: load the configuration, then switch on its role. The switch's
    default case is unreachable, because loadConfig only accepts the two
    known roles.
  */
  function Start(role: string, backupPath: string): (l: Launch)
    ensures !l.UnknownRole?
    ensures l.RunPublisher? <==> role == "" || role == Publisher
    ensures l.RunSubscriber? <==> role == Subscriber && backupPath != ""
    ensures l.RunSubscriber? ==> l.cfg.backupPath == backupPath && backupPath != ""
    ensures l.FailedToLoad? ==> LoadConfig(role, backupPath) == Failure(l.error)
    ensures l.RunPublisher? || l.RunSubscriber? ==> LoadConfig(role, backupPath) == Success(l.cfg)
  {
    match LoadConfig(role, backupPath)
    case Failure(e) => FailedToLoad(e)
    case Success(cfg) =>
      if cfg.role == Publisher then RunPublisher(cfg)
      else if cfg.role == Subscriber then RunSubscriber(cfg)
      else UnknownRole(cfg.role)
  }
}
