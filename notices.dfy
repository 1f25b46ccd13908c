/** The messages `load_config` prints, as events without their wording. */
module Notices {

  datatype Notice =
    | LoadingFile                                  // "Loading configuration file..."
    | NoSkinsNotice                                // no skins, exiting
    | SkinsLoaded(count: nat)                      // the number of skins loaded
    | TimeoutDefaulted(key: string, seconds: int)  // a timeout not provided, default used
    | ZeroTimeoutWarning                           // a zero per-skin or per-page timeout
    | NoProxyNotice                                // continuing without a proxy
}
