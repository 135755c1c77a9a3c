/**
  The per-model configuration record as it stands after the configuration is
  loaded: the launch command, the proxy target, the request filters and the
  loading-state notification flag (absent until inherited from the global default).
 */
module Config {
  import opened Wrappers

  /** Request filters: `stripParams` is the raw, comma-separated list of request
      parameter names the proxy removes before forwarding a request. */
  datatype ModelFilters = ModelFilters(stripParams: string)

  datatype ModelConfig = ModelConfig(
    cmd: string,
    proxy: string,
    filters: ModelFilters,
    sendLoadingState: Option<bool>)
}
