/** config.RouteConfig, as far as the transport chain and the registry look at it. */
module Routes {
  import opened Targets
  import opened Backoff

  datatype Route = Route(service: string, strategy: string, retry: Policy, targets: seq<Target>)
}
