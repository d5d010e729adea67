/**
 * The UseCmdletCorrectly rule: every cmdlet invocation in a script must name
 * at least one of the parameters that pass the rule's mandatory count (as
 * many Mandatory-flagged ParameterAttributes as the cmdlet has parameter
 * sets), unless the rule cannot decide (unknown command,
 * unreadable metadata, positional arguments), in which case it stays silent.
 *
 * The functions below specify the rule; the methods are the rule's own
 * step-by-step procedures, each proved to compute what its function says.
 */
module UseCmdletCorrectly {
  import opened Wrappers
  import opened CommandModel

  // ---------------------------------------------------------------------------
  // Specification: the mandatory set
  // ---------------------------------------------------------------------------

  /** An attribute that counts towards "mandatory": a ParameterAttribute flagged Mandatory. */
  predicate IsMandatoryFlag(a: Attr)
  {
    a.ParamAttr? && a.mandatory
  }

  /** How many of the attribute occurrences are Mandatory-flagged ParameterAttributes. */
  function MandatoryCount(attrs: seq<Attr>): (count: nat)
    ensures count <= |attrs|
  {
    if attrs == [] then 0
    else MandatoryCount(attrs[..|attrs| - 1]) + (if IsMandatoryFlag(attrs[|attrs| - 1]) then 1 else 0)
  }

  /**
   * The rule's count test: a parameter has at least as many attribute
   * occurrences as the command has parameter sets, and at least that many of
   * them are Mandatory-flagged ParameterAttributes. This is a proxy for
   * "mandatory in every parameter set", not PowerShell's own notion: a
   * parameter declared once, Mandatory, for all of two sets carries a single
   * ParameterAttribute and fails the test.
   */
  predicate CountedMandatoryInEverySet(p: ParameterMetadata, setCount: nat)
  {
    |p.attributes| >= setCount && MandatoryCount(p.attributes) >= setCount
  }

  /** The parameters that pass the count test, in the order the command lists them. */
  function MandatorySet(parameters: seq<ParameterMetadata>, setCount: nat): (mand: seq<ParameterMetadata>)
    ensures |mand| <= |parameters|
    ensures forall p :: p in mand <==> p in parameters && CountedMandatoryInEverySet(p, setCount)
  {
    if parameters == [] then []
    else
      var last := parameters[|parameters| - 1];
      MandatorySet(parameters[..|parameters| - 1], setCount)
        + (if CountedMandatoryInEverySet(last, setCount) then [last] else [])
  }

  // ---------------------------------------------------------------------------
  // Specification: the verdict for one invocation
  // ---------------------------------------------------------------------------

  /** The names of the named-parameter elements of an invocation, in order. */
  function ParameterNames(elements: seq<CommandElement>): (names: seq<string>)
    ensures |names| <= |elements|
    ensures forall x :: x in names <==> Named(x) in elements
  {
    if elements == [] then []
    else
      (match elements[0] case Named(x) => [x] case Arg => [])
        + ParameterNames(elements[1..])
  }

  /** How many mandatory parameters carry `name`, compared ordinal and case-insensitive. */
  function MatchCount(mand: seq<ParameterMetadata>, name: string): (c: nat)
    ensures c <= |mand|
    ensures c > 0 <==> exists j :: 0 <= j < |mand| && EqualsIgnoreCase(mand[j].name, name)
  {
    if mand == [] then 0
    else
      MatchCount(mand[..|mand| - 1], name)
        + (if EqualsIgnoreCase(mand[|mand| - 1].name, name) then 1 else 0)
  }

  /** Some named parameter equals some mandatory parameter's name, ignoring case. */
  predicate NamesSomeMandatory(names: seq<string>, mand: seq<ParameterMetadata>)
  {
    exists i, j :: 0 <= i < |names| && 0 <= j < |mand| && EqualsIgnoreCase(mand[j].name, names[i])
  }

  /**
   * The command a name resolves to: the lookup of the alias resolver's answer
   * first, and the lookup of the name itself only when that finds nothing.
   */
  function ResolveCommand(name: string, helper: Helper): (resolved: Option<CommandInfo>)
    ensures resolved.None? <==>
      helper.commandInfo(helper.cmdletNameFromAlias(name)).None? && helper.commandInfo(name).None?
    ensures helper.commandInfo(helper.cmdletNameFromAlias(name)).Some? ==>
      resolved == helper.commandInfo(helper.cmdletNameFromAlias(name))
    ensures resolved == helper.commandInfo(helper.cmdletNameFromAlias(name)) || resolved == helper.commandInfo(name)
  {
    match helper.commandInfo(helper.cmdletNameFromAlias(name))
    case Some(info) => Some(info)
    case None => helper.commandInfo(name)
  }

  /** The rule's verdict on one invocation with a static command name. */
  predicate IsConformant(cmd: CommandAst, helper: Helper): (conformant: bool)
    requires cmd.commandName.Some?
    ensures helper.positionalParameterUsed(cmd) ==> conformant
    ensures !conformant ==>
      var resolved := ResolveCommand(cmd.commandName.value, helper);
      && resolved.Some?
      && resolved.value.commandType == Cmdlet
      && resolved.value.metadata.Readable?
      && MandatorySet(resolved.value.metadata.parameters, resolved.value.metadata.parameterSetCount) != []
  {
    match ResolveCommand(cmd.commandName.value, helper)
    case None => true
    case Some(info) =>
      info.commandType != Cmdlet ||
      match info.metadata
      case Faulted => true
      case Readable(setCount, parameters) =>
        var mand := MandatorySet(parameters, setCount);
        mand == [] || helper.positionalParameterUsed(cmd) || NamesSomeMandatory(ParameterNames(cmd.elements), mand)
  }

  /**
   * An invocation the rule reports: it has a static name (the guard that
   * skips nameless invocations) and is not conformant.
   */
  predicate Flagged(cmd: CommandAst, helper: Helper)
  {
    cmd.commandName.Some? && !IsConformant(cmd, helper)
  }

  /** The warning the rule emits for a flagged invocation. */
  function WarningFor(cmd: CommandAst, fileName: string): (record: DiagnosticRecord)
    requires cmd.commandName.Some?
    ensures record.severity == Warning
    ensures Some(record.commandName) == cmd.commandName && record.extent == cmd.extent
    ensures record.fileName == fileName
  {
    DiagnosticRecord(cmd.commandName.value, cmd.extent, Warning, fileName)
  }

  /** The records the rule emits for the invocations `found`, in the order found. */
  function Report(found: seq<CommandAst>, fileName: string, helper: Helper): (records: seq<DiagnosticRecord>)
    ensures |records| <= |found|
    ensures forall r :: r in records ==> r.severity == Warning && r.fileName == fileName
  {
    if found == [] then []
    else
      var last := found[|found| - 1];
      Report(found[..|found| - 1], fileName, helper)
        + (if Flagged(last, helper) then [WarningFor(last, fileName)] else [])
  }

  // ---------------------------------------------------------------------------
  // The rule's procedures
  // ---------------------------------------------------------------------------

  /**
   * Collects the parameters that pass the mandatory count test: skips
   * parameters with fewer attribute occurrences than sets, counts the
   * Mandatory-flagged ParameterAttributes of the others, and keeps those whose
   * count reaches the set count.
   */
  method DeriveMandatoryParameters(noOfParamSets: nat, parameters: seq<ParameterMetadata>)
    returns (mandParams: seq<ParameterMetadata>)
    ensures mandParams == MandatorySet(parameters, noOfParamSets)
  {
    mandParams := [];
    var i := 0;
    while i < |parameters|
      invariant 0 <= i <= |parameters|
      invariant mandParams == MandatorySet(parameters[..i], noOfParamSets)
    {
      var pm := parameters[i];
      assert parameters[..i + 1][..i] == parameters[..i];
      if |pm.attributes| < noOfParamSets {
        i := i + 1;
        continue;
      }
      var count := 0;
      var j := 0;
      while j < |pm.attributes|
        invariant 0 <= j <= |pm.attributes|
        invariant count == MandatoryCount(pm.attributes[..j])
      {
        assert pm.attributes[..j + 1][..j] == pm.attributes[..j];
        var attr := pm.attributes[j];
        if !attr.ParamAttr? {
          j := j + 1;
          continue;
        }
        if attr.mandatory {
          count := count + 1;
        }
        j := j + 1;
      }
      assert pm.attributes[..j] == pm.attributes;
      if count >= noOfParamSets {
        mandParams := mandParams + [pm];
      }
      i := i + 1;
    }
    assert parameters[..i] == parameters;
  }

  /**
   * True when the invocation names a mandatory parameter, or when the rule
   * cannot tell: the command is unknown or not a cmdlet, its metadata cannot
   * be read, no parameter passes the mandatory count test, or an argument is
   * bound by position.
   */
  method IsMandatoryParameterExisted(cmdAst: CommandAst, helper: Helper) returns (returnValue: bool)
    requires cmdAst.commandName.Some?
    ensures returnValue == IsConformant(cmdAst, helper)
  {
    var name := cmdAst.commandName.value;
    var cmdInfo := helper.commandInfo(helper.cmdletNameFromAlias(name));
    if cmdInfo.None? {
      cmdInfo := helper.commandInfo(name);
    }
    if cmdInfo.None? || cmdInfo.value.commandType != Cmdlet {
      return true;
    }

    var ceAsts := ParameterNames(cmdAst.elements);

    var mandParams: seq<ParameterMetadata>;
    match cmdInfo.value.metadata {
      case Faulted =>
        return true;
      case Readable(noOfParamSets, parameters) =>
        mandParams := DeriveMandatoryParameters(noOfParamSets, parameters);
    }

    returnValue := false;
    if |mandParams| == 0 || helper.positionalParameterUsed(cmdAst) {
      returnValue := true;
    } else {
      var k := 0;
      while k < |ceAsts|
        invariant 0 <= k <= |ceAsts|
        invariant !returnValue
        invariant forall m :: 0 <= m < k ==> MatchCount(mandParams, ceAsts[m]) == 0
      {
        if MatchCount(mandParams, ceAsts[k]) > 0 {
          returnValue := true;
          break;
        }
        k := k + 1;
      }
    }
  }

  /**
   * Runs the rule over a script: fails on a missing tree, otherwise walks the
   * invocations `findAll` returns and emits one warning for each invocation
   * with a static name that is not conformant.
   */
  method AnalyzeScript<Tree>(ast: Option<Tree>, fileName: string, findAll: Tree -> seq<CommandAst>, helper: Helper)
    returns (result: Result<seq<DiagnosticRecord>, AnalysisError>)
    ensures ast.None? ==> result == Failure(NullAst)
    ensures ast.Some? ==> result == Success(Report(findAll(ast.value), fileName, helper))
  {
    if ast.None? {
      return Failure(NullAst);
    }
    var foundAsts := findAll(ast.value);
    var records: seq<DiagnosticRecord> := [];
    for i := 0 to |foundAsts|
      invariant records == Report(foundAsts[..i], fileName, helper)
    {
      var cmdAst := foundAsts[i];
      assert foundAsts[..i + 1][..i] == foundAsts[..i];
      if cmdAst.commandName.None? {
        continue;
      }
      var ok := IsMandatoryParameterExisted(cmdAst, helper);
      if !ok {
        records := records + [WarningFor(cmdAst, fileName)];
      }
    }
    assert foundAsts[..|foundAsts|] == foundAsts;
    return Success(records);
  }
}
