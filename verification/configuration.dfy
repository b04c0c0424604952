/**
 * `Geolocation.configure` and `Geolocation::Configuration`: a module-level
 * configuration created on first use with its defaults and handed to the
 * caller's block, which changes it through the attribute writers. The block
 * is the sequence of writer calls it makes.
 */
module GeolocationConfig {

  /** The values of a configuration's three attributes. */
  datatype Settings = Settings(enabled: bool, uploadsDir: string, dataDumpCsv: string)

  /** What `Configuration.new` sets. */
  const Defaults := Settings(true, "uploads", "data_dump.csv")

  /** One call of an attribute writer inside a `configure` block. */
  datatype Assignment = SetEnabled(enabled: bool) | SetUploadsDir(dir: string) | SetDataDumpCsv(name: string)

  /** The settings after one writer call. */
  function Apply(s: Settings, a: Assignment): Settings {
    match a
    case SetEnabled(b) => s.(enabled := b)
    case SetUploadsDir(d) => s.(uploadsDir := d)
    case SetDataDumpCsv(n) => s.(dataDumpCsv := n)
  }

  /** The settings after the writer calls of `block`, in order. */
  function ApplyAll(s: Settings, block: seq<Assignment>): Settings
    decreases |block|
  {
    if block == [] then s
    else Apply(ApplyAll(s, block[..|block| - 1]), block[|block| - 1])
  }

  /** The block assigns `enabled` somewhere. */
  predicate AssignsEnabled(block: seq<Assignment>) {
    exists k :: 0 <= k < |block| && block[k].SetEnabled?
  }

  /** The block assigns `uploads_dir` somewhere. */
  predicate AssignsUploadsDir(block: seq<Assignment>) {
    exists k :: 0 <= k < |block| && block[k].SetUploadsDir?
  }

  /** The block assigns `data_dump_csv` somewhere. */
  predicate AssignsDataDumpCsv(block: seq<Assignment>) {
    exists k :: 0 <= k < |block| && block[k].SetDataDumpCsv?
  }

  /** An attribute the block does not assign keeps its value. */
  lemma {:induction false} UnassignedKept(s: Settings, block: seq<Assignment>)
    ensures !AssignsEnabled(block) ==> ApplyAll(s, block).enabled == s.enabled
    ensures !AssignsUploadsDir(block) ==> ApplyAll(s, block).uploadsDir == s.uploadsDir
    ensures !AssignsDataDumpCsv(block) ==> ApplyAll(s, block).dataDumpCsv == s.dataDumpCsv
    decreases |block|
  {
    if block != [] {
      var front := block[..|block| - 1];
      UnassignedKept(s, front);
      if AssignsEnabled(front) {
        var k :| 0 <= k < |front| && front[k].SetEnabled?;
        assert block[k] == front[k];
      }
      if AssignsUploadsDir(front) {
        var k :| 0 <= k < |front| && front[k].SetUploadsDir?;
        assert block[k] == front[k];
      }
      if AssignsDataDumpCsv(front) {
        var k :| 0 <= k < |front| && front[k].SetDataDumpCsv?;
        assert block[k] == front[k];
      }
    }
  }

  /** An attribute the block assigns ends with the value of its last assignment. */
  lemma {:induction false} LastAssignmentWins(s: Settings, block: seq<Assignment>, k: nat)
    requires k < |block|
    ensures block[k].SetEnabled? && (forall j :: k < j < |block| ==> !block[j].SetEnabled?) ==>
      ApplyAll(s, block).enabled == block[k].enabled
    ensures block[k].SetUploadsDir? && (forall j :: k < j < |block| ==> !block[j].SetUploadsDir?) ==>
      ApplyAll(s, block).uploadsDir == block[k].dir
    ensures block[k].SetDataDumpCsv? && (forall j :: k < j < |block| ==> !block[j].SetDataDumpCsv?) ==>
      ApplyAll(s, block).dataDumpCsv == block[k].name
    decreases |block|
  {
    var n := |block|;
    var front := block[..n - 1];
    if k < n - 1 {
      LastAssignmentWins(s, front, k);
      assert front[k] == block[k];
      assert forall j :: k < j < n - 1 ==> front[j] == block[j];
    }
  }

  /**
   * Two blocks run one after the other leave what their writer calls leave
   * run as one block: what the first block set is what the second one sees.
   */
  lemma {:induction false} BlocksCompose(s: Settings, first: seq<Assignment>, second: seq<Assignment>)
    ensures ApplyAll(ApplyAll(s, first), second) == ApplyAll(s, first + second)
    decreases |second|
  {
    if second != [] {
      var both := first + second;
      assert both[..|both| - 1] == first + second[..|second| - 1];
      assert both[|both| - 1] == second[|second| - 1];
      BlocksCompose(s, first, second[..|second| - 1]);
    } else {
      assert first + second == first;
    }
  }

  /** `Geolocation::Configuration`: three attributes with writers. */
  class Configuration {
    var enabled: bool
    var uploadsDir: string
    var dataDumpCsv: string

    /** The attribute values. */
    function Current(): Settings
      reads this
    {
      Settings(enabled, uploadsDir, dataDumpCsv)
    }

    /** `Configuration.new`: the defaults. */
    constructor ()
      ensures Current() == Defaults
    {
      enabled := true;
      uploadsDir := "uploads";
      dataDumpCsv := "data_dump.csv";
    }

    /** One attribute writer call. */
    method Assign(a: Assignment)
      modifies this
      ensures Current() == Apply(old(Current()), a)
    {
      match a
      case SetEnabled(b) => enabled := b;
      case SetUploadsDir(d) => uploadsDir := d;
      case SetDataDumpCsv(n) => dataDumpCsv := n;
    }
  }

  /** The `Geolocation` module object with its `configuration` accessor. */
  class Geolocation {
    var configuration: Configuration?

    /** Before any `configure` call there is no configuration. */
    constructor ()
      ensures configuration == null
    {
      configuration := null;
    }

    /**
     * `Geolocation.configure { |config| ... }`: the configuration is created
     * with its defaults only when there is none, and the block then runs its
     * writer calls on it. The configuration handed to the block is the one
     * kept, so the next call sees what this one set.
     */
    method Configure(block: seq<Assignment>) returns (config: Configuration)
      modifies this, configuration
      ensures configuration == config
      ensures old(configuration) != null ==> config == old(configuration)
      ensures old(configuration) == null ==> fresh(config)
      ensures config.Current() ==
        ApplyAll(if old(configuration) == null then Defaults else old(configuration.Current()), block)
    {
      if configuration == null {
        configuration := new Configuration();
      }
      config := configuration;
      ghost var start := config.Current();
      for i := 0 to |block|
        invariant configuration == config
        invariant config.Current() == ApplyAll(start, block[..i])
      {
        assert block[..i + 1][..i] == block[..i];
        config.Assign(block[i]);
      }
      assert block[..|block|] == block;
    }
  }
}
