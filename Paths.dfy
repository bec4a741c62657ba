/** The configuration of a patch run: the base directory of the package
    tree, taken from the `BASE` environment variable, and the target files
    built from it by string concatenation (lib/common.py). */
module Paths {
  import opened Text

  datatype Config = Base(dir: string) | NoBase

  /** `os.environ.get("BASE") or sys.exit("No BASE")`: a missing variable
      and an empty one are both falsy, and both end the process before any
      patch runs. The environment lookup is the parameter `env`. */
  function ResolveBase(env: Option<string>): (c: Config)
    ensures c.NoBase? <==> env.None? || env.value == []
    ensures c.Base? ==> c.dir == env.value && c.dir != []
  {
    match env
    case None => NoBase
    case Some(v) => if v == [] then NoBase else Base(v)
  }

  /** `services = base + "/services"`, and likewise for `commands` and
      `memory`: each directory is the base directory followed by one path
      segment of its own. */
  function Services(base: string): (d: string)
    ensures |d| == |base| + |"/services"|
    ensures d[..|base|] == base && d[|base|..] == "/services"
  {
    base + "/services"
  }

  function Commands(base: string): (d: string)
    ensures |d| == |base| + |"/commands"|
    ensures d[..|base|] == base && d[|base|..] == "/commands"
  {
    base + "/commands"
  }

  function Memory(base: string): (d: string)
    ensures |d| == |base| + |"/memory"|
    ensures d[..|base|] == base && d[|base|..] == "/memory"
  {
    base + "/memory"
  }

  /** The part of each target path after the base directory. */
  function TargetSuffixes(): (t: seq<string>)
    ensures |t| == 9
  {
    [ "/services" + "/headless-worker-executor.js",
      "/services" + "/worker-daemon.js",
      "/commands" + "/daemon.js",
      "/commands" + "/doctor.js",
      "/memory" + "/memory-initializer.js",
      "/mcp-tools/memory-tools.js",
      "/mcp-tools/hooks-tools.js",
      "/commands" + "/memory.js",
      "/mcp-tools/embeddings-tools.js" ]
  }

  /** The nine shared target paths, in the order the module declares them:
      HWE, WD, DJ, DOC, MI, MCP_MEMORY, MCP_HOOKS, CLI_MEMORY, EMB_TOOLS.
      Every one is the base directory followed by its fixed suffix. */
  function Targets(base: string): (t: seq<string>)
    ensures |t| == 9
    ensures forall k :: 0 <= k < 9 ==> t[k] == base + TargetSuffixes()[k]
  {
    Regroup(base, "/services", "/headless-worker-executor.js");
    Regroup(base, "/services", "/worker-daemon.js");
    Regroup(base, "/commands", "/daemon.js");
    Regroup(base, "/commands", "/doctor.js");
    Regroup(base, "/memory", "/memory-initializer.js");
    Regroup(base, "/commands", "/memory.js");
    [ Services(base) + "/headless-worker-executor.js",
      Services(base) + "/worker-daemon.js",
      Commands(base) + "/daemon.js",
      Commands(base) + "/doctor.js",
      Memory(base) + "/memory-initializer.js",
      base + "/mcp-tools/memory-tools.js",
      base + "/mcp-tools/hooks-tools.js",
      Commands(base) + "/memory.js",
      base + "/mcp-tools/embeddings-tools.js" ]
  }

  lemma Regroup(base: string, dir: string, file: string)
    ensures (base + dir) + file == base + (dir + file)
  {
  }

  /** No two targets name the same file, whatever the base directory. */
  lemma TargetsDistinct(base: string)
    ensures forall i, j :: 0 <= i < j < 9 ==> Targets(base)[i] != Targets(base)[j]
  {
    var x := TargetSuffixes();
    forall i, j | 0 <= i < j < 9 ensures Targets(base)[i] != Targets(base)[j] {
      SuffixesDistinct(i, j);
      assert (base + x[i])[|base|..] == x[i];
      assert (base + x[j])[|base|..] == x[j];
    }
  }

  lemma SuffixesDistinct(i: int, j: int)
    requires 0 <= i < j < 9
    ensures TargetSuffixes()[i] != TargetSuffixes()[j]
  {
    var x := TargetSuffixes();
    // Suffixes of equal length differ at a known index.
    if (i, j) == (1, 5) {
      assert x[i][1] != x[j][1];
    } else if (i, j) == (2, 3) {
      assert x[i][11] != x[j][11];
    } else if (i, j) == (2, 7) || (i, j) == (3, 7) {
      assert x[i][10] != x[j][10];
    } else {
      assert |x[i]| != |x[j]|;
    }
  }
}
