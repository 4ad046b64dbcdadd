/** The configuration a project loads into: containers and tasks, in declaration order. */
module ConfigModel {
  import opened Common
  import opened Graphs

  /** An insertion-ordered map, as the `indexmap` crate's `IndexMap`. */
  datatype IndexMap<V> = IndexMap(keys: seq<string>, entries: map<string, V>) {
    ghost predicate Valid() {
      && NoDuplicates(keys)
      && (forall k :: k in keys <==> k in entries)
    }

    /** A new key goes last; a present one keeps its place. */
    function Insert(k: string, v: V): IndexMap<V> {
      IndexMap(if k in entries then keys else keys + [k], entries[k := v])
    }
  }

  datatype NetworkMode = Host | NoNetwork | ShareWith(container: string)

  datatype CheckKind =
    | Http(port: nat, path: string, expectedStatus: nat)
    | Tcp(port: nat)

  datatype ExternalHealthCheck =
    ExternalHealthCheck(kind: CheckKind, timeout: Option<nat>, retries: Option<nat>)

  /** The settings that are only ever inherited, each kept as it was written. */
  datatype PlainSetting =
    | ImagePullPolicy | BuildArgs | Dockerfile | BuildTarget | Environment | AdditionalHostnames | AdditionalHosts
    | Ports | WorkingDirectory | Command | Labels | CapabilitiesToAdd | CapabilitiesToDrop | Privileged | ShmSize
    | Devices | EnableInitProcess | LogOptions | StopSignal | StopGracePeriod | Ulimits
    | Dns | DnsSearch | DnsOptions | User | Group | Groups | Identity

  /** The fields the passes below read or write, and every other inherited setting. */
  datatype Container = Container(
    extendsFrom: Option<string>,
    reportsReadinessFor: Option<string>,
    image: Option<string>,
    volumes: Option<seq<string>>,
    buildDirectory: Option<string>,
    buildSecrets: Option<seq<string>>,
    buildSsh: Option<seq<string>>,
    runAsCurrentUser: Option<bool>,
    dependencies: Option<seq<string>>,
    healthCheck: Option<string>,
    setupCommands: Option<seq<string>>,
    runToCompletion: Option<bool>,
    externalHealthCheck: Option<ExternalHealthCheck>,
    entrypoint: Option<string>,
    logDriver: Option<string>,
    networkMode: Option<NetworkMode>,
    settings: map<PlainSetting, string>)

  const UNSET_CONTAINER := Container(None, None, None, None, None, None, None, None,
                                     None, None, None, None, None, None, None, None, map[])

  datatype Task = Task(run: Option<string>, dependencies: Option<seq<string>>)

  /** A whole configuration as a value. */
  datatype Project = Project(containers: IndexMap<Container>, tasks: IndexMap<Task>) {
    ghost predicate Valid() {
      containers.Valid() && tasks.Valid()
    }

    /** Who depends on whom; a name that is not declared has no dependencies. */
    function DependencyGraph(): Graph<string> {
      DependenciesOf(containers.entries)
    }
  }

  function DependenciesOf(containers: map<string, Container>): Graph<string> {
    map n | n in containers :: Listed(containers[n].dependencies)
  }

  function Listed(dependencies: Option<seq<string>>): seq<string> {
    match dependencies
    case Some(names) => names
    case None => []
  }
}
