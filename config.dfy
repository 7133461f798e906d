/** The configuration records of config.go:11-30. An empty string means the
    field was not set. Reading and decoding the YAML file is not modelled. */
module RouteConfig {
  datatype RouteExpectWhen = RouteExpectWhen(device: string, gateway: string, source: string)

  datatype RouteExpect = RouteExpect(when: RouteExpectWhen)

  datatype Route = Route(name: string, ip: string, expects: seq<RouteExpect>)

  datatype Config = Config(failFast: bool, route: seq<Route>)
}
