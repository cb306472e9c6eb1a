/**
 * The launcher of the crawler: the configuration check and the guards in
 * front of the scheduling of the crawl job.
 */
module Launcher {
  import opened Wrappers

  /** A loaded app.properties file: property names to their values. */
  type Properties = map<string, string>

  /** The configuration keys of the database connection. */
  const DRIVER: string := "jdbc.driver"
  const URL: string := "jdbc.url"
  const USERNAME: string := "jdbc.username"
  const PASSWORD: string := "jdbc.password"
  /** The key of the cron expression that schedules the job. */
  const CRON_TIME: string := "cron.time"

  /** The keys a configuration must define, in the order they are checked. */
  const CONFIG_KEYS: seq<string> := [DRIVER, URL, USERNAME, PASSWORD, CRON_TIME]

  /** Every required key is present, whatever its value. */
  predicate HasAllKeys(config: Properties) {
    forall key | key in CONFIG_KEYS :: key in config
  }

  /**
   * checkConfig: a missing configuration is rejected; otherwise the keys are
   * tried in order and the first one that is absent rejects it.
   */
  method CheckConfig(config: Option<Properties>) returns (ok: bool)
    ensures config.None? ==> !ok
    ensures ok <==> config.Some? && HasAllKeys(config.value)
  {
    if config.None? {
      return false;
    }
    for k := 0 to |CONFIG_KEYS|
      invariant forall j | 0 <= j < k :: CONFIG_KEYS[j] in config.value
    {
      if CONFIG_KEYS[k] !in config.value {
        return false;
      }
    }
    return true;
  }

  /** Only the key set matters: values, and keys other than the required ones, never change the verdict. */
  lemma OnlyRequiredKeysMatter(a: Properties, b: Properties)
    requires forall key | key in CONFIG_KEYS :: (key in a <==> key in b)
    ensures HasAllKeys(a) <==> HasAllKeys(b)
  {
  }

  /** Adding properties to a valid configuration keeps it valid. */
  lemma ExtraPropertiesKeepValid(config: Properties, extra: Properties)
    requires HasAllKeys(config)
    ensures HasAllKeys(config + extra) && HasAllKeys(extra + config)
  {
  }

  /** How a start of the program ends. */
  datatype Start =
    | NoConfigPath          // no command-line argument
    | ConfigNotLoaded       // the file could not be read
    | ConfigInvalid         // a required key is missing
    | Scheduled(config: Properties)  // the crawl job is handed to the scheduler

  /**
   * main: the first argument names the configuration file; `load` reads it
   * (getConfig, None when reading fails). The job is scheduled only when
   * every guard passes, and then with the loaded configuration.
   */
  method Launch(args: seq<string>, load: string -> Option<Properties>) returns (r: Start)
    ensures |args| == 0 ==> r == NoConfigPath
    ensures |args| > 0 && load(args[0]).None? ==> r == ConfigNotLoaded
    ensures |args| > 0 && load(args[0]).Some? && !HasAllKeys(load(args[0]).value) ==> r == ConfigInvalid
    ensures r.Scheduled? <==> |args| > 0 && load(args[0]).Some? && HasAllKeys(load(args[0]).value)
    ensures r.Scheduled? ==> r.config == load(args[0]).value
  {
    if |args| == 0 {
      return NoConfigPath;
    }
    var config := load(args[0]);
    if config.None? {
      return ConfigNotLoaded;
    }
    var ok := CheckConfig(config);
    if !ok {
      return ConfigInvalid;
    }
    return Scheduled(config.value);
  }
}
