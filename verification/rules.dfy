/** The rule table of src/lib/analysis/classifier.ts and what it means for a
    rule to match a file. */
module Rules {
  import opened Wrappers
  import opened Strings
  import opened Patterns
  import opened Types

  /** A rule's pattern: a plain string or a regular expression. */
  datatype Pattern = Literal(text: string) | RegExp(re: Regex)

  /** The rule's kind together with its pattern: which field of the file the
      pattern is tried on. */
  datatype Matcher = PathRule(pattern: Pattern) | ExtRule(pattern: Pattern) | ContentRule(pattern: Pattern)

  datatype Rule = Rule(id: string, matcher: Matcher, layer: Layer, score: nat, subcat: Option<string>)

  /** Whether a rule matches a file: a string pattern is searched for in the
      path or the snippet and compared whole with the extension; a regular
      expression is tested against the chosen field. */
  predicate Matches(rule: Rule, file: RawFile) {
    match rule.matcher
    case PathRule(Literal(t)) => Contains(file.path, t)
    case PathRule(RegExp(re)) => Test(re, file.path)
    case ExtRule(Literal(t)) => file.extension == t
    case ExtRule(RegExp(re)) => Test(re, file.extension)
    case ContentRule(Literal(t)) => Contains(file.snippet, t)
    case ContentRule(RegExp(re)) => Test(re, file.snippet)
  }

  /** A rule whose subcategory the second pass looks at: one with a non-empty
      `subcat` (an empty string is falsy and skipped like a missing one). */
  predicate HasSubcat(r: Rule) {
    r.subcat.Some? && r.subcat.value != ""
  }

  /** Every rule weighs something. */
  predicate PositiveScores(rules: seq<Rule>) {
    forall i :: 0 <= i < |rules| ==> rules[i].score >= 1
  }

  /** Every rule names a subcategory. */
  predicate AllHaveSubcat(rules: seq<Rule>) {
    forall i :: 0 <= i < |rules| ==> HasSubcat(rules[i])
  }

  function Path(re: Regex): Matcher { PathRule(RegExp(re)) }
  function Ext(re: Regex): Matcher { ExtRule(RegExp(re)) }
  function Content(re: Regex): Matcher { ContentRule(RegExp(re)) }

  /** One alternative per word, each without a `.*`. */
  function Words(ws: seq<string>): (alts: seq<seq<string>>)
    ensures |alts| == |ws| && forall k :: 0 <= k < |ws| ==> alts[k] == [ws[k]]
  {
    seq(|ws|, k requires 0 <= k < |ws| => [ws[k]])
  }

  /** `RULES`, in table order. Names of segment patterns are pattern text, so
      the `.github` of "tool-config-folder" keeps its unescaped `.`; the
      `(\.|_)(test|spec)\.` of "tool-test-file" is written as its four
      literal alternatives. */
  const Table: seq<Rule> := [
    // Presentation
    Rule("pres-web-folder", Path(SegmentOf(["ui", "views", "pages", "components", "frontend", "web", "public", "assets", "styles"])),
         Presentation, 5, Some("Web UI")),
    Rule("pres-web-ext", Ext(DotExtOf(["tsx", "jsx", "css", "scss", "less", "sass", "vue", "svelte", "html"])),
         Presentation, 5, Some("Web UI")),
    Rule("pres-next-app", Path(FileNameOf(["page", "layout", "loading", "template", "error", "not-found", "global-error", "route"],
                                          ["tsx", "jsx", "js", "ts"])),
         Presentation, 6, Some("Web UI")),
    Rule("pres-api-routes", Path(SegmentOf(["api", "routes", "endpoints", "graphql", "rpc"])),
         Presentation, 5, Some("API Route")),
    Rule("pres-api-content", Content(AnyOf(Words(["@Controller", "@Get", "@Post", "router.", "app.get", "ServeHTTP"]) + [["func", "Handler"]])),
         Presentation, 4, Some("API Route")),
    Rule("pres-cli-folder", Path(SegmentOf(["cmd", "cli", "commands"])),
         Presentation, 5, Some("CLI Command")),
    Rule("pres-cli-content", Content(AnyOf(Words(["cobra.Command", "flags.String", "console.log", "print("]))),
         Presentation, 2, Some("CLI Command")),
    // Application
    Rule("app-service", Path(SegmentOf(["services", "usecases", "logic", "hooks", "actions"])),
         Application, 5, Some("Service")),
    Rule("app-service-content", Content(AnyOf([["class", "Service"], ["type", "UseCase"], ["function", "Hook"]])),
         Application, 4, Some("Service")),
    Rule("app-state", Path(SegmentOf(["store", "state", "reducers", "slices", "atoms", "context"])),
         Application, 5, Some("State Management")),
    Rule("app-state-content", Content(AnyOf(Words(["createSlice", "configureStore", "createStore", "RecoilRoot", "atom(", "createContext", "dispatch("]))),
         Application, 4, Some("State Management")),
    Rule("app-controller", Path(SegmentOf(["controllers"])),
         Application, 4, Some("Controller")),
    Rule("app-jobs", Path(SegmentOf(["jobs", "workers", "queues", "tasks"])),
         Application, 5, Some("Job/Worker")),
    // Domain
    Rule("dom-model", Path(SegmentOf(["models", "entities", "domain", "schemas", "dtos", "dto"])),
         Domain, 6, Some("Model")),
    Rule("dom-types", Path(SegmentOf(["types", "interfaces"])),
         Domain, 6, Some("Type/Interface")),
    Rule("dom-util", Path(SegmentOf(["utils", "util", "lib", "helpers", "validations", "common", "shared"])),
         Domain, 4, Some("Utility")),
    Rule("dom-const", Path(SegmentOf(["constants", "config", "enums"])),
         Domain, 5, Some("Constant/Config")),
    // Infrastructure
    Rule("infra-db-folder", Path(SegmentOf(["db", "database", "prisma", "drizzle", "sql", "migrations", "seeds", "data"])),
         Infrastructure, 6, Some("Database")),
    Rule("infra-db-ext", Ext(DotExtOf(["sql", "prisma", "db", "sqlite"])),
         Infrastructure, 6, Some("Database")),
    Rule("infra-repo", Path(SegmentOf(["repositories", "dao", "store"])),
         Infrastructure, 5, Some("Repository")),
    Rule("infra-client", Path(SegmentOf(["clients", "adapters", "providers", "integrations", "sdk", "webhooks"])),
         Infrastructure, 5, Some("Adapter")),
    Rule("infra-content", Content(AnyOf(Words(["fetch(", "axios.", "grpc.", "s3.", "aws-sdk", "pg.", "mysql."]))),
         Infrastructure, 3, Some("Adapter")),
    // Tooling
    Rule("tool-config-files", Path(WholeOf(["package.json", "go.mod", "requirements.txt", "tsconfig.json", ".gitignore", "Dockerfile", "Makefile"],
                                           ["docker-compose"])),
         Tooling, 7, Some("Configuration")),
    Rule("tool-config-folder", Path(SegmentOf(["build", "dist", "deploy", "scripts", "infra", "terraform", ".github", "k8s"])),
         Tooling, 6, Some("Configuration")),
    Rule("tool-infra-ext", Ext(DotExtOf(["tf", "tfvars", "yaml", "yml", "toml", "conf", "xml", "gradle"])),
         Tooling, 2, Some("Configuration")),
    Rule("tool-test-folder", Path(SegmentOf(["test", "tests", "__tests__", "spec", "e2e", "cypress"])),
         Tooling, 7, Some("Test")),
    Rule("tool-test-file", Path(AnyOf(Words([".test.", "_test.", ".spec.", "_spec."]))),
         Tooling, 7, Some("Test")),
    Rule("tool-test-content", Content(AnyOf(Words(["describe(", "it(", "expect(", "assert.", "TestMain"]))),
         Tooling, 4, Some("Test")),
    Rule("tool-docs", Path(SegmentOf(["docs", "documentation"])),
         Tooling, 6, Some("Documentation")),
    Rule("tool-docs-file", Path(WholeOf([], ["README", "LICENSE", "CHANGELOG"])),
         Tooling, 7, Some("Documentation")),
    Rule("tool-docs-ext", Ext(DotExtOf(["md", "txt"])),
         Tooling, 2, Some("Documentation"))
  ]

  /** The table's shape: 31 rules, each with a positive score and a subcategory. */
  lemma TableShape()
    ensures |Table| == 31
    ensures PositiveScores(Table)
    ensures AllHaveSubcat(Table)
  {
    forall i | 0 <= i < |Table| ensures Table[i].score >= 1 && HasSubcat(Table[i]) {
      RuleShape(i);
    }
  }

  /** One rule of the table weighs something and names a subcategory. */
  lemma RuleShape(i: nat)
    requires i < |Table|
    ensures Table[i].score >= 1 && HasSubcat(Table[i])
  {
  }

  /** The unescaped `.` of `.github`: "tool-config-folder" also fires on a
      segment such as `xgithub`, and even across a doubled slash. */
  lemma GithubDotIsWildcard(file: RawFile)
    requires file.path == "a/xgithub/b.ts" || file.path == "a//github"
    ensures Matches(Table[23], file)
  {
    var names := ["build", "dist", "deploy", "scripts", "infra", "terraform", ".github", "k8s"];
    assert Table[23].matcher == Path(SegmentOf(names));
    if file.path == "a/xgithub/b.ts" {
      assert SegmentAt(file.path, 2, names[6]);
    } else {
      assert SegmentAt(file.path, 2, names[6]);
    }
  }
}
