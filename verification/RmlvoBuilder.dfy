// Building a set of rule names step by step: layouts with their own options,
// and options that apply to all layouts.
module RmlvoBuilder {
  import opened Basics
  import opened Words

  const MAX_GROUPS: nat := 32

  type LayoutIndex = i: nat | i < MAX_GROUPS

  datatype Error = Success | Invalid

  datatype Layout = Layout(layout: string, variant: string)

  // A layout mask is a word with a bit for each layout.  The mask 0 is the
  // global one.
  datatype BuilderOption = BuilderOption(option: string, layouts: nat)

  const GLOBAL: nat := 0

  datatype Scope = Global | ForLayout(index: LayoutIndex)

  // One option appended, with its scope.
  datatype Append = Append(option: string, scope: Scope)

  // ------------------------------------------------------------------------
  // What a run of appends amounts to

  // The options in the order of their first appearance.
  function FirstSeen(appends: seq<Append>): seq<string> {
    if appends == [] then []
    else
      var last := |appends| - 1;
      var names := FirstSeen(appends[..last]);
      if appends[last].option in names then names else names + [appends[last].option]
  }

  ghost predicate EverGlobal(appends: seq<Append>, option: string) {
    Append(option, Global) in appends
  }

  ghost predicate NamedBy(appends: seq<Append>, option: string, index: nat) {
    index < MAX_GROUPS && Append(option, ForLayout(index)) in appends
  }

  // With masks of w bits, the mask is 0 exactly when the option was ever
  // appended globally; otherwise its bits are the layouts that named the option.
  ghost predicate MaskOk(w: nat, appends: seq<Append>, o: BuilderOption) {
    && o.layouts < Pow2(w)
    && (o.layouts == GLOBAL <==> EverGlobal(appends, o.option))
    && (!EverGlobal(appends, o.option) ==>
          forall i :: 0 <= i < w ==> (Bit(o.layouts, i) <==> NamedBy(appends, o.option, i)))
  }

  ghost predicate OptionsOk(w: nat, appends: seq<Append>, options: seq<BuilderOption>) {
    && FirstSeen(appends) == seq(|options|, i requires 0 <= i < |options| => options[i].option)
    && (forall i, j :: 0 <= i < j < |options| ==> options[i].option != options[j].option)
    && (forall i :: 0 <= i < |options| ==> MaskOk(w, appends, options[i]))
  }

  lemma {:induction false} FirstSeenMembers(appends: seq<Append>, option: string)
    ensures option in FirstSeen(appends) <==> exists k :: 0 <= k < |appends| && appends[k].option == option
  {
    if appends != [] {
      var last := |appends| - 1;
      FirstSeenMembers(appends[..last], option);
      if k :| 0 <= k < |appends| && appends[k].option == option {
        if k < last {
          assert appends[..last][k].option == option;
        }
      }
    }
  }

  // More appends keep the order of the options, and only add at the end; no
  // option comes twice.
  lemma {:induction false} FirstSeenGrows(appends: seq<Append>, k: nat)
    requires k <= |appends|
    ensures FirstSeen(appends[..k]) <= FirstSeen(appends) && Distinct(FirstSeen(appends))
  {
    var last := |appends| - 1;
    if k <= last {
      FirstSeenGrows(appends[..last], k);
      assert appends[..last][..k] == appends[..k];
    } else {
      assert appends[..k] == appends;
      if k > 0 {
        FirstSeenGrows(appends[..last], last);
      }
    }
  }

  // The bit of a layout, shifted into place.
  function MaskOf(scope: Scope): nat {
    match scope
    case Global => GLOBAL
    case ForLayout(i) => Pow2(i)
  }

  // The mask of an option that is appended once more.
  function Merged(w: nat, layouts: nat, added: nat): nat {
    if added == GLOBAL then added
    else if layouts != GLOBAL then BitOr(w, layouts, added)
    else layouts
  }

  lemma MaskOfBits(w: nat, scope: Scope, i: nat)
    requires w >= MAX_GROUPS
    ensures MaskOf(scope) < Pow2(w) && (MaskOf(scope) == GLOBAL <==> scope.Global?)
    ensures Bit(MaskOf(scope), i) <==> scope.ForLayout? && scope.index == i
  {
    match scope
    case Global => BitOfZero(i);
    case ForLayout(k) =>
      BitOfPower(k, i);
      Pow2Increasing(k, w);
  }

  lemma MergedMaskOk(w: nat, appends: seq<Append>, o: BuilderOption, scope: Scope)
    requires w >= MAX_GROUPS && MaskOk(w, appends, o)
    ensures MaskOk(w, appends + [Append(o.option, scope)],
                   BuilderOption(o.option, Merged(w, o.layouts, MaskOf(scope))))
  {
    var a := Append(o.option, scope);
    var after, mask := appends + [a], Merged(w, o.layouts, MaskOf(scope));
    assert forall b :: b in after <==> b in appends || b == a;
    MaskOfBits(w, scope, 0);
    if scope.ForLayout? && o.layouts != GLOBAL {
      OrPositive(w, o.layouts, MaskOf(scope));
      forall i | 0 <= i < w
        ensures Bit(mask, i) <==> NamedBy(after, o.option, i)
      {
        BitOfOr(w, o.layouts, MaskOf(scope), i);
        MaskOfBits(w, scope, i);
        assert NamedBy(after, o.option, i) <==> NamedBy(appends, o.option, i) || scope.index == i;
      }
    }
  }

  lemma OtherMaskOk(w: nat, appends: seq<Append>, o: BuilderOption, a: Append)
    requires MaskOk(w, appends, o) && a.option != o.option
    ensures MaskOk(w, appends + [a], o)
  {
    var after := appends + [a];
    assert forall b :: b in after <==> b in appends || b == a;
  }

  lemma NewMaskOk(w: nat, appends: seq<Append>, a: Append)
    requires w >= MAX_GROUPS && a.option !in FirstSeen(appends)
    ensures MaskOk(w, appends + [a], BuilderOption(a.option, MaskOf(a.scope)))
  {
    var after := appends + [a];
    assert forall b :: b in after <==> b in appends || b == a;
    FirstSeenMembers(appends, a.option);
    MaskOfBits(w, a.scope, 0);
    forall i | 0 <= i < w && a.scope.ForLayout?
      ensures Bit(MaskOf(a.scope), i) <==> NamedBy(after, a.option, i)
    {
      MaskOfBits(w, a.scope, i);
      assert NamedBy(after, a.option, i) <==> a.scope.index == i;
    }
  }

  // An option that the list already holds is merged in place.
  lemma MergeKeeps(w: nat, appends: seq<Append>, options: seq<BuilderOption>, k: nat, scope: Scope)
    requires w >= MAX_GROUPS && OptionsOk(w, appends, options) && k < |options|
    ensures OptionsOk(w, appends + [Append(options[k].option, scope)],
                      options[k := BuilderOption(options[k].option, Merged(w, options[k].layouts, MaskOf(scope)))])
  {
    var a := Append(options[k].option, scope);
    var options' := options[k := BuilderOption(options[k].option, Merged(w, options[k].layouts, MaskOf(scope)))];
    assert (appends + [a])[..|appends|] == appends;
    assert FirstSeen(appends)[k] == a.option;
    forall i | 0 <= i < |options|
      ensures MaskOk(w, appends + [a], options'[i])
    {
      if i == k {
        MergedMaskOk(w, appends, options[k], scope);
      } else {
        OtherMaskOk(w, appends, options[i], a);
      }
    }
  }

  // An option that the list does not hold goes to its end.
  lemma AppendKeeps(w: nat, appends: seq<Append>, options: seq<BuilderOption>, a: Append)
    requires w >= MAX_GROUPS && OptionsOk(w, appends, options)
    requires forall i :: 0 <= i < |options| ==> options[i].option != a.option
    ensures OptionsOk(w, appends + [a], options + [BuilderOption(a.option, MaskOf(a.scope))])
  {
    assert (appends + [a])[..|appends|] == appends;
    assert a.option !in FirstSeen(appends);
    var options' := options + [BuilderOption(a.option, MaskOf(a.scope))];
    forall i | 0 <= i < |options'|
      ensures MaskOk(w, appends + [a], options'[i])
    {
      if i < |options| {
        OtherMaskOk(w, appends, options[i], a);
      } else {
        NewMaskOk(w, appends, a);
      }
    }
  }

  // ------------------------------------------------------------------------
  // The builder

  class Builder {
    const maskBits: nat
    var layouts: seq<Layout>
    var options: seq<BuilderOption>
    ghost var appends: seq<Append>

    ghost predicate Valid()
      reads this
    {
      maskBits >= MAX_GROUPS && |layouts| <= MAX_GROUPS && OptionsOk(maskBits, appends, options)
    }

    constructor (maskBits: nat)
      requires maskBits >= MAX_GROUPS
      ensures Valid() && layouts == [] && appends == []
    {
      this.maskBits := maskBits;
      layouts, options, appends := [], [], [];
    }

    method AppendOption(option: string, scope: Scope) returns (error: Error)
      requires Valid()
      modifies `options, `appends
      ensures Valid()
      ensures error == if option == "" then Invalid else Success
      ensures appends == if option == "" then old(appends) else old(appends) + [Append(option, scope)]
    {
      if option == "" {
        return Invalid;
      }
      for k := 0 to |options|
        invariant options == old(options) && appends == old(appends)
        invariant forall i :: 0 <= i < k ==> options[i].option != option
      {
        if options[k].option == option {
          MergeKeeps(maskBits, appends, options, k, scope);
          options := options[k := BuilderOption(option, Merged(maskBits, options[k].layouts, MaskOf(scope)))];
          appends := appends + [Append(option, scope)];
          return Success;
        }
      }
      AppendKeeps(maskBits, appends, options, Append(option, scope));
      options := options + [BuilderOption(option, MaskOf(scope))];
      appends := appends + [Append(option, scope)];
      return Success;
    }

    method AppendLayout(layout: string, variant: string, layoutOptions: seq<string>) returns (ok: bool)
      requires Valid()
      modifies this
      ensures Valid()
      ensures ok <==> |old(layouts)| < MAX_GROUPS
      ensures !ok ==> layouts == old(layouts) && options == old(options) && appends == old(appends)
      ensures ok ==> layouts == old(layouts) + [Layout(layout, variant)]
                     && appends == old(appends) + LayoutAppends(layoutOptions, |old(layouts)|)
      ensures ok ==> forall o :: o in layoutOptions && o != "" ==> NamedBy(appends, o, |old(layouts)|)
      ensures ok ==> forall a :: a in appends && a !in old(appends) ==>
                a.scope == ForLayout(|old(layouts)|) && a.option in layoutOptions && a.option != ""
    {
      var idx := |layouts|;
      if idx >= MAX_GROUPS {
        return false;
      }
      layouts := layouts + [Layout(layout, variant)];
      AppendLayoutOptions(layoutOptions, idx);
      forall a: Append
        ensures a in LayoutAppends(layoutOptions, idx) <==>
                a.scope == ForLayout(idx) && a.option in layoutOptions && a.option != ""
      {
        LayoutAppendsMembers(layoutOptions, idx, a);
      }
      return true;
    }

    method AppendLayoutOptions(layoutOptions: seq<string>, idx: LayoutIndex)
      requires Valid()
      modifies `options, `appends
      ensures Valid()
      ensures appends == old(appends) + LayoutAppends(layoutOptions, idx)
    {
      for k := 0 to |layoutOptions|
        invariant Valid()
        invariant appends == old(appends) + LayoutAppends(layoutOptions[..k], idx)
      {
        LayoutAppendsNext(old(appends), layoutOptions, idx, k);
        var error := AppendOption(layoutOptions[k], ForLayout(idx));
      }
      assert layoutOptions[..|layoutOptions|] == layoutOptions;
    }

    method AppendGlobalOption(option: string) returns (ok: bool)
      requires Valid()
      modifies `options, `appends
      ensures Valid()
      ensures ok <==> option != ""
      ensures appends == if ok then old(appends) + [Append(option, Global)] else old(appends)
    {
      var error := AppendOption(option, Global);
      ok := error == Success;
    }
  }

  lemma LayoutAppendsNext(before: seq<Append>, options: seq<string>, idx: LayoutIndex, k: nat)
    requires k < |options|
    ensures before + LayoutAppends(options[..k + 1], idx)
         == before + LayoutAppends(options[..k], idx) + OptionAppends(options[k], idx)
  {
    assert options[..k + 1][..k] == options[..k];
  }

  // They are the layout's own options, without the empty ones.
  lemma {:induction false} LayoutAppendsMembers(options: seq<string>, idx: LayoutIndex, a: Append)
    ensures a in LayoutAppends(options, idx) <==>
            a.scope == ForLayout(idx) && a.option in options && a.option != ""
  {
    if options != [] {
      var last := |options| - 1;
      LayoutAppendsMembers(options[..last], idx, a);
      assert options == options[..last] + [options[last]];
    }
  }

  function OptionAppends(option: string, idx: LayoutIndex): seq<Append> {
    if option == "" then [] else [Append(option, ForLayout(idx))]
  }

  // The appends that a layout's own options amount to; empty options are
  // skipped.
  function LayoutAppends(options: seq<string>, idx: LayoutIndex): seq<Append> {
    if options == [] then []
    else
      var last := |options| - 1;
      LayoutAppends(options[..last], idx) + OptionAppends(options[last], idx)
  }
}
