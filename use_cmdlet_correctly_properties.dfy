/**
 * What the UseCmdletCorrectly rule promises, stated over its specification
 * functions: how the mandatory set is derived, when an invocation is
 * conformant, and what the emitted records are.
 */
module UseCmdletCorrectlyProperties {
  import opened Wrappers
  import opened CommandModel
  import opened UseCmdletCorrectly

  // ---------------------------------------------------------------------------
  // The mandatory set
  // ---------------------------------------------------------------------------

  /**
   * The mandatory count is the number of occurrences of a Mandatory-flagged
   * ParameterAttribute: other attributes, and ParameterAttributes without the
   * flag, are never counted.
   */
  lemma {:induction false} MandatoryCountIsMultiplicity(attrs: seq<Attr>)
    ensures MandatoryCount(attrs) == multiset(attrs)[ParamAttr(true)]
  {
    if attrs != [] {
      var init, last := attrs[..|attrs| - 1], attrs[|attrs| - 1];
      MandatoryCountIsMultiplicity(init);
      assert attrs == init + [last];
      assert multiset(attrs) == multiset(init) + multiset{last};
    }
  }

  /** Inserting an attribute that is not a Mandatory-flagged ParameterAttribute changes nothing. */
  lemma UncountedAttributeIsIgnored(before: seq<Attr>, a: Attr, after: seq<Attr>)
    requires !IsMandatoryFlag(a)
    ensures MandatoryCount(before + [a] + after) == MandatoryCount(before + after)
  {
    MandatoryCountIsMultiplicity(before + [a] + after);
    MandatoryCountIsMultiplicity(before + after);
    assert multiset(before + [a] + after) == multiset(before) + multiset{a} + multiset(after);
    assert multiset(before + after) == multiset(before) + multiset(after);
    assert a != ParamAttr(true);
  }

  /**
   * A parameter with fewer attribute occurrences than parameter sets is never
   * in the mandatory set; and since the mandatory count never exceeds the
   * number of occurrences, membership is decided by the count alone.
   */
  lemma MandatorySetMembership(parameters: seq<ParameterMetadata>, setCount: nat, p: ParameterMetadata)
    ensures |p.attributes| < setCount ==> p !in MandatorySet(parameters, setCount)
    ensures p in MandatorySet(parameters, setCount) <==> p in parameters && MandatoryCount(p.attributes) >= setCount
  {
  }

  /**
   * With two parameter sets, a parameter flagged Mandatory in both is in the
   * mandatory set, and one flagged Mandatory in only one of them is not,
   * whatever other attributes either carries.
   */
  lemma TwoParameterSets(a: ParameterMetadata, b: ParameterMetadata)
    requires multiset(a.attributes)[ParamAttr(true)] >= 2
    requires multiset(b.attributes)[ParamAttr(true)] == 1
    ensures MandatorySet([a, b], 2) == [a]
  {
    MandatoryCountIsMultiplicity(a.attributes);
    MandatoryCountIsMultiplicity(b.attributes);
    assert [a, b][..1] == [a];
    assert [a][..0] == [];
  }

  // ---------------------------------------------------------------------------
  // The verdict for one invocation
  // ---------------------------------------------------------------------------

  /** Some named-parameter element of `elements` carries the name of a member of `mand`, ignoring case. */
  predicate NamedElementMatches(elements: seq<CommandElement>, mand: seq<ParameterMetadata>)
  {
    exists i, j :: 0 <= i < |elements| && 0 <= j < |mand| &&
      elements[i].Named? && EqualsIgnoreCase(mand[j].name, elements[i].parameterName)
  }

  /**
   * An invocation is reported exactly when its command resolves to a cmdlet
   * with readable metadata, some parameter passes the mandatory count test, no
   * argument is bound by position, and no named parameter matches any
   * mandatory one. One match clears the invocation even when other
   * mandatory parameters are missing.
   */
  lemma NotConformantExactly(cmd: CommandAst, helper: Helper)
    requires cmd.commandName.Some?
    ensures !IsConformant(cmd, helper) <==>
      var resolved := ResolveCommand(cmd.commandName.value, helper);
      && resolved.Some?
      && resolved.value.commandType == Cmdlet
      && resolved.value.metadata.Readable?
      && var mand := MandatorySet(resolved.value.metadata.parameters, resolved.value.metadata.parameterSetCount);
      && mand != []
      && !helper.positionalParameterUsed(cmd)
      && !NamedElementMatches(cmd.elements, mand)
  {
    var resolved := ResolveCommand(cmd.commandName.value, helper);
    if resolved.Some? && resolved.value.metadata.Readable? {
      var mand := MandatorySet(resolved.value.metadata.parameters, resolved.value.metadata.parameterSetCount);
      NamesMatchIffElementsMatch(cmd.elements, mand);
    }
  }

  /**
   * With two parameter sets, naming only a parameter that is mandatory in one
   * of them does not clear the call: the parameter mandatory in both is still
   * missing, so the invocation is reported.
   */
  lemma TwoParameterSetsNamingOnlyPartlyMandatory(cmd: CommandAst, helper: Helper, a: ParameterMetadata, b: ParameterMetadata)
    requires cmd.commandName.Some?
    requires ResolveCommand(cmd.commandName.value, helper) == Some(CommandInfo(Cmdlet, Readable(2, [a, b])))
    requires multiset(a.attributes)[ParamAttr(true)] >= 2
    requires multiset(b.attributes)[ParamAttr(true)] == 1
    requires !EqualsIgnoreCase(a.name, b.name)
    requires cmd.elements == [Arg, Named(b.name)]
    requires !helper.positionalParameterUsed(cmd)
    ensures Flagged(cmd, helper)
  {
    TwoParameterSets(a, b);
    NotConformantExactly(cmd, helper);
  }

  /** Matching on the extracted parameter names is matching on the named elements. */
  lemma NamesMatchIffElementsMatch(elements: seq<CommandElement>, mand: seq<ParameterMetadata>)
    ensures NamesSomeMandatory(ParameterNames(elements), mand) <==> NamedElementMatches(elements, mand)
  {
  }

  /**
   * Whenever the rule cannot decide it stays silent: an unknown command, a
   * command that is not a cmdlet, unreadable metadata, no parameter mandatory
   * in every set, or a positionally bound argument all make the invocation
   * conformant.
   */
  lemma SilentWhenUndecidable(cmd: CommandAst, helper: Helper)
    requires cmd.commandName.Some?
    ensures var name := cmd.commandName.value;
      helper.commandInfo(helper.cmdletNameFromAlias(name)).None? && helper.commandInfo(name).None?
      ==> IsConformant(cmd, helper)
    ensures ResolveCommand(cmd.commandName.value, helper).Some? &&
      ResolveCommand(cmd.commandName.value, helper).value.commandType != Cmdlet
      ==> IsConformant(cmd, helper)
    ensures ResolveCommand(cmd.commandName.value, helper).Some? &&
      ResolveCommand(cmd.commandName.value, helper).value.metadata.Faulted?
      ==> IsConformant(cmd, helper)
    ensures helper.positionalParameterUsed(cmd) ==> IsConformant(cmd, helper)
    ensures (forall setCount, parameters ::
      ResolveCommand(cmd.commandName.value, helper) == Some(CommandInfo(Cmdlet, Readable(setCount, parameters)))
      ==> MandatorySet(parameters, setCount) == [])
      ==> IsConformant(cmd, helper)
  {
  }

  /**
   * The alias resolver's answer is looked up first: when that lookup finds a
   * command, the lookup of the name itself is never consulted, so two helpers
   * that agree on the alias path give the same verdict.
   */
  lemma AliasLookupTakesPrecedence(cmd: CommandAst, h1: Helper, h2: Helper)
    requires cmd.commandName.Some?
    requires h1.cmdletNameFromAlias(cmd.commandName.value) == h2.cmdletNameFromAlias(cmd.commandName.value)
    requires h1.commandInfo(h1.cmdletNameFromAlias(cmd.commandName.value)).Some?
    requires h1.commandInfo(h1.cmdletNameFromAlias(cmd.commandName.value))
      == h2.commandInfo(h2.cmdletNameFromAlias(cmd.commandName.value))
    requires h1.positionalParameterUsed(cmd) == h2.positionalParameterUsed(cmd)
    ensures IsConformant(cmd, h1) == IsConformant(cmd, h2)
  {
  }

  /** When the alias path finds nothing, the verdict is that of the direct lookup of the name. */
  lemma DirectLookupWhenAliasFails(cmd: CommandAst, h1: Helper, h2: Helper)
    requires cmd.commandName.Some?
    requires h1.commandInfo(h1.cmdletNameFromAlias(cmd.commandName.value)).None?
    requires h2.commandInfo(h2.cmdletNameFromAlias(cmd.commandName.value)).None?
    requires h1.commandInfo(cmd.commandName.value) == h2.commandInfo(cmd.commandName.value)
    requires h1.positionalParameterUsed(cmd) == h2.positionalParameterUsed(cmd)
    ensures IsConformant(cmd, h1) == IsConformant(cmd, h2)
  {
  }

  // ---------------------------------------------------------------------------
  // The emitted records
  // ---------------------------------------------------------------------------

  /** Records for a concatenation of invocation lists are the concatenation of their records. */
  lemma {:induction false} ReportAppend(a: seq<CommandAst>, b: seq<CommandAst>, fileName: string, helper: Helper)
    ensures Report(a + b, fileName, helper) == Report(a, fileName, helper) + Report(b, fileName, helper)
    decreases |b|
  {
    if b != [] {
      var init, last := b[..|b| - 1], b[|b| - 1];
      ReportAppend(a, init, fileName, helper);
      assert (a + b)[..|a + b| - 1] == a + init;
    } else {
      assert a + b == a;
    }
  }

  /**
   * An invocation with no static name, or a conformant one, contributes
   * nothing; a flagged one contributes exactly its warning, in place.
   */
  lemma ReportOfOne(before: seq<CommandAst>, cmd: CommandAst, after: seq<CommandAst>, fileName: string, helper: Helper)
    ensures !Flagged(cmd, helper) ==>
      Report(before + [cmd] + after, fileName, helper) == Report(before + after, fileName, helper)
    ensures Flagged(cmd, helper) ==>
      Report(before + [cmd] + after, fileName, helper)
      == Report(before, fileName, helper) + [WarningFor(cmd, fileName)] + Report(after, fileName, helper)
  {
    ReportAppend(before + [cmd], after, fileName, helper);
    ReportAppend(before, [cmd], fileName, helper);
    ReportAppend(before, after, fileName, helper);
    assert [cmd][..0] == [];
  }

  /** The rule is silent on a script exactly when no invocation in it is flagged. */
  lemma {:induction false} ReportEmptyIffNoneFlagged(found: seq<CommandAst>, fileName: string, helper: Helper)
    ensures Report(found, fileName, helper) == [] <==> forall i :: 0 <= i < |found| ==> !Flagged(found[i], helper)
  {
    if found != [] {
      var init := found[..|found| - 1];
      ReportEmptyIffNoneFlagged(init, fileName, helper);
      assert forall i :: 0 <= i < |init| ==> init[i] == found[i];
    }
  }

  /** The positions of the flagged invocations, in increasing order. */
  function FlaggedIndices(found: seq<CommandAst>, helper: Helper): (idx: seq<nat>)
    ensures forall k :: 0 <= k < |idx| ==> idx[k] < |found| && Flagged(found[idx[k]], helper)
    ensures forall k, l :: 0 <= k < l < |idx| ==> idx[k] < idx[l]
    ensures forall i :: 0 <= i < |found| && Flagged(found[i], helper) ==> i in idx
  {
    if found == [] then []
    else
      var init := found[..|found| - 1];
      FlaggedIndices(init, helper) + (if Flagged(found[|found| - 1], helper) then [|found| - 1] else [])
  }

  /**
   * The records are one Warning per flagged invocation, naming its command,
   * in the order the invocations were found, and nothing else.
   */
  lemma {:induction false} ReportIsOneWarningPerFlagged(found: seq<CommandAst>, fileName: string, helper: Helper)
    ensures var records, idx := Report(found, fileName, helper), FlaggedIndices(found, helper);
      |records| == |idx| &&
      forall k :: 0 <= k < |idx| ==>
        found[idx[k]].commandName.Some? &&
        records[k] == DiagnosticRecord(found[idx[k]].commandName.value, found[idx[k]].extent, Warning, fileName)
  {
    if found != [] {
      var init, last := found[..|found| - 1], found[|found| - 1];
      ReportIsOneWarningPerFlagged(init, fileName, helper);
      var records, idx := Report(found, fileName, helper), FlaggedIndices(found, helper);
      var initRecords, initIdx := Report(init, fileName, helper), FlaggedIndices(init, helper);
      if Flagged(last, helper) {
        assert records == initRecords + [WarningFor(last, fileName)];
        assert idx == initIdx + [|found| - 1];
      } else {
        assert records == initRecords;
        assert idx == initIdx;
      }
      forall k | 0 <= k < |idx|
        ensures found[idx[k]].commandName.Some?
        ensures records[k] == DiagnosticRecord(found[idx[k]].commandName.value, found[idx[k]].extent, Warning, fileName)
      {
        if k < |initIdx| {
          assert idx[k] == initIdx[k] && records[k] == initRecords[k];
          assert found[idx[k]] == init[initIdx[k]];
        }
      }
    }
  }

  // ---------------------------------------------------------------------------
  // A worked example
  // ---------------------------------------------------------------------------

  /** Copy-Item's parameters in the example: Path and Destination mandatory, Force optional. */
  function CopyItemParameters(): seq<ParameterMetadata>
  {
    [ParameterMetadata("Path", [ParamAttr(true)]),
     ParameterMetadata("Destination", [ParamAttr(true)]),
     ParameterMetadata("Force", [ParamAttr(false)])]
  }

  /** With one parameter set, Path and Destination are mandatory in every set and Force is not. */
  lemma CopyItemMandatorySet()
    ensures MandatorySet(CopyItemParameters(), 1) == CopyItemParameters()[..2]
  {
  }

  /**
   * Naming only `-destination`, in any case, clears a Copy-Item call even
   * though Path, also mandatory, is missing.
   */
  lemma CopyItemOneMatchSuffices(helper: Helper, at: Extent)
    requires helper.commandInfo(helper.cmdletNameFromAlias("Copy-Item"))
      == Some(CommandInfo(Cmdlet, Readable(1, CopyItemParameters())))
    ensures IsConformant(CommandAst(Some("Copy-Item"), [Arg, Named("destination"), Arg], at), helper)
  {
    CopyItemMandatorySet();
    var mand := MandatorySet(CopyItemParameters(), 1);
    assert EqualsIgnoreCase(mand[1].name, "destination") by {
      assert "destination"[1..] == mand[1].name[1..];
    }
    var cmd := CommandAst(Some("Copy-Item"), [Arg, Named("destination"), Arg], at);
    NamesMatchIffElementsMatch(cmd.elements, mand);
    assert cmd.elements[1].Named?;
  }

  /** Naming only `-Force` on a Copy-Item call, with no positional argument, yields one warning. */
  lemma CopyItemMissingMandatoryReported(helper: Helper, fileName: string, at: Extent)
    requires helper.commandInfo(helper.cmdletNameFromAlias("Copy-Item"))
      == Some(CommandInfo(Cmdlet, Readable(1, CopyItemParameters())))
    requires !helper.positionalParameterUsed(CommandAst(Some("Copy-Item"), [Arg, Named("Force")], at))
    ensures Report([CommandAst(Some("Copy-Item"), [Arg, Named("Force")], at)], fileName, helper)
      == [DiagnosticRecord("Copy-Item", at, Warning, fileName)]
  {
    CopyItemMandatorySet();
    var mand := MandatorySet(CopyItemParameters(), 1);
    var cmd := CommandAst(Some("Copy-Item"), [Arg, Named("Force")], at);
    assert !EqualsIgnoreCase(mand[0].name, "Force") && !EqualsIgnoreCase(mand[1].name, "Force");
    assert !NamedElementMatches(cmd.elements, mand);
    NotConformantExactly(cmd, helper);
    assert [cmd][..0] == [];
  }

  /**
   * `Copy-Item -Filter:a b` and `Copy-Item -Filter a` have the same name and
   * the same kinds of elements, but only the first binds an argument by
   * position. The detector answers per invocation, so only the second is
   * reported.
   */
  lemma PositionalAnswerIsPerInvocation(helper: Helper, fileName: string, first: CommandAst, second: CommandAst)
    requires first.commandName == Some("Copy-Item") && second.commandName == Some("Copy-Item")
    requires first.elements == [Arg, Named("Filter"), Arg] && second.elements == first.elements
    requires helper.commandInfo(helper.cmdletNameFromAlias("Copy-Item"))
      == Some(CommandInfo(Cmdlet, Readable(1, CopyItemParameters())))
    requires helper.positionalParameterUsed(first) && !helper.positionalParameterUsed(second)
    ensures Report([first, second], fileName, helper) == [WarningFor(second, fileName)]
  {
    CopyItemMandatorySet();
    var mand := MandatorySet(CopyItemParameters(), 1);
    assert !EqualsIgnoreCase(mand[0].name, "Filter") && !EqualsIgnoreCase(mand[1].name, "Filter");
    assert !NamedElementMatches(second.elements, mand);
    NotConformantExactly(second, helper);
    assert [first, second][..1] == [first] && [first][..0] == [];
  }
}
