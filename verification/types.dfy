/** The records the analysis passes around (src/lib/analysis/types.ts and the
    `RawFileStats` record of scanner.ts). */
module Types {
  import opened Wrappers

  /** The five architecture layers, declared in the order every scan over them uses. */
  datatype Layer = Presentation | Application | Domain | Infrastructure | Tooling

  /** The declaration order, which is also the key order of the score record
      and of the per-layer statistics. */
  const LayerOrder: seq<Layer> := [Presentation, Application, Domain, Infrastructure, Tooling]

  /** Position of a layer in `LayerOrder`. */
  function Rank(l: Layer): (n: nat)
    ensures n < |LayerOrder| && LayerOrder[n] == l
  {
    match l
    case Presentation => 0
    case Application => 1
    case Domain => 2
    case Infrastructure => 3
    case Tooling => 4
  }

  /** One value per layer: the `Record<Layer, T>` the code initialises with all
      five keys. */
  datatype PerLayer<T> = PerLayer(presentation: T, application: T, domain: T, infrastructure: T, tooling: T) {

    function Get(l: Layer): T {
      match l
      case Presentation => presentation
      case Application => application
      case Domain => domain
      case Infrastructure => infrastructure
      case Tooling => tooling
    }

    function Set(l: Layer, v: T): (r: PerLayer<T>)
      ensures r.Get(l) == v
      ensures forall m :: m != l ==> r.Get(m) == Get(m)
    {
      match l
      case Presentation => this.(presentation := v)
      case Application => this.(application := v)
      case Domain => this.(domain := v)
      case Infrastructure => this.(infrastructure := v)
      case Tooling => this.(tooling := v)
    }
  }

  function Everywhere<T>(v: T): (r: PerLayer<T>)
    ensures forall l :: r.Get(l) == v
  {
    PerLayer(v, v, v, v, v)
  }

  /** What the scanner or the GitHub fetcher hands the classifier for one file. */
  datatype RawFile = RawFile(path: string, loc: nat, churn: nat, extension: string, snippet: string)

  /** Evidence that one rule matched: its id, the rule's score and a description. */
  datatype Signal = Signal(rule: string, strength: nat, description: string)

  datatype FileAnalysis = FileAnalysis(
    path: string,
    extension: string,
    loc: nat,
    churn: nat,
    layer: Layer,
    subcategory: Option<string>,
    confidence: real,
    signals: seq<Signal>,
    moduleName: string)

  /** The paths of a list of records, in order. */
  function PathsOf(files: seq<RawFile>): (ps: seq<string>)
    ensures |ps| == |files|
    ensures forall i :: 0 <= i < |files| ==> ps[i] == files[i].path
  {
    seq(|files|, i requires 0 <= i < |files| => files[i].path)
  }

  lemma PathsSnoc(files: seq<RawFile>, f: RawFile)
    ensures PathsOf(files + [f]) == PathsOf(files) + [f.path]
  {
  }
}
