/**
 * The data the UseCmdletCorrectly rule reads: invocations found in a script,
 * the metadata the command provider returns for a command name, and the
 * diagnostic records the rule emits.
 */
module CommandModel {
  import opened Wrappers

  /** The kind of a resolved command (the provider's CommandTypes). Only `Cmdlet` is analysed. */
  datatype CommandType =
    | Alias | Function | Filter | Cmdlet | ExternalScript | Application | Script | Workflow | Configuration

  /**
   * One attribute attached to a parameter: a ParameterAttribute, with its
   * Mandatory flag, or any other attribute (validation, alias, ...).
   */
  datatype Attr = ParamAttr(mandatory: bool) | OtherAttr

  /** A parameter of a cmdlet: its name and every attribute occurrence declared on it. */
  datatype ParameterMetadata = ParameterMetadata(name: string, attributes: seq<Attr>)

  /**
   * The parameter-set count and the parameters of a command, or `Faulted`
   * when reading them throws (as it does for native executables).
   */
  datatype ParameterInfo =
    | Faulted
    | Readable(parameterSetCount: nat, parameters: seq<ParameterMetadata>)

  /** What the metadata provider returns for a name it resolves. */
  datatype CommandInfo = CommandInfo(commandType: CommandType, metadata: ParameterInfo)

  /**
   * One element of an invocation: a named parameter (`-Path`, recorded
   * without the dash) or anything else (the command word, an argument value).
   */
  datatype CommandElement = Named(parameterName: string) | Arg

  /** The span of source text a syntax node covers; it tells apart invocations that read alike. */
  datatype Extent = Extent(startOffset: nat, endOffset: nat)

  /**
   * One command invocation found in the script. `commandName` is `None` when
   * the command is computed by an expression (`& $cmd ...`). The positional
   * detector reads the whole node, extent included, so two invocations with
   * the same name and elements may still get different answers from it.
   */
  datatype CommandAst = CommandAst(commandName: Option<string>, elements: seq<CommandElement>, extent: Extent)

  /**
   * The external collaborators the rule consults: the alias resolver, the
   * command metadata lookup (`None` for a name it cannot resolve) and the
   * detector of positionally bound arguments.
   */
  datatype Helper = Helper(
    cmdletNameFromAlias: string -> string,
    commandInfo: string -> Option<CommandInfo>,
    positionalParameterUsed: CommandAst -> bool)

  datatype Severity = Information | Warning | Error | ParseError

  /** A diagnostic: the offending command's name, where it is, the severity and the file analysed. */
  datatype DiagnosticRecord = DiagnosticRecord(commandName: string, extent: Extent, severity: Severity, fileName: string)

  /** The one error the analysis raises: it was handed no syntax tree. */
  datatype AnalysisError = NullAst

  /** Simple case folding: ASCII lower-case letters map to upper case, everything else to itself. */
  function Fold(c: char): (r: char)
    ensures !('a' <= r <= 'z')
    ensures r == c || ('a' <= c <= 'z' && r as int == c as int - 32)
  {
    if 'a' <= c <= 'z' then (c as int - 32) as char else c
  }

  /** Ordinal, case-insensitive string equality. */
  predicate EqualsIgnoreCase(a: string, b: string): (same: bool)
    ensures a == b ==> same
    ensures same ==> |a| == |b|
    ensures same && a != b ==> exists i :: 0 <= i < |a| && a[i] != b[i] && Fold(a[i]) == Fold(b[i])
  {
    |a| == |b| && forall i :: 0 <= i < |a| ==> Fold(a[i]) == Fold(b[i])
  }
}
