/**
  Loading: from the configuration as the document reader hands it over to the
  per-model records the rest of the proxy uses. The macro table is applied to
  each model's launch command and strip-params directive, the legacy spelling
  `strip_params` of the directive is folded into the canonical one, and every
  model's loading-state flag is settled: its own override when it has one,
  the global default otherwise.
 */
module Loader {
  import opened Wrappers
  import opened Config
  import opened Macros
  import opened Filters

  /** The filters of a model entry as written: `stripParams` is the canonical
      key, `legacyStripParams` the older `strip_params`. An absent key reads as
      the empty string. */
  datatype RawFilters = RawFilters(stripParams: string, legacyStripParams: string)

  datatype RawModel = RawModel(
    cmd: string,
    proxy: string,
    filters: RawFilters,
    sendLoadingState: Option<bool>)

  datatype RawConfig = RawConfig(
    macros: map<string, string>,
    sendLoadingState: bool,
    models: map<string, RawModel>)

  datatype LoadedConfig = LoadedConfig(
    sendLoadingState: bool,
    models: map<string, ModelConfig>)

  /** The directive a filters entry stands for: the canonical key unless it is
      empty, in which case the legacy key. */
  function Directive(f: RawFilters): (d: string)
    ensures d == f.stripParams || d == f.legacyStripParams
    ensures d == [] ==> f.stripParams == [] && f.legacyStripParams == []
  {
    if f.stripParams != [] then f.stripParams else f.legacyStripParams
  }

  function LoadFilters(f: RawFilters, macros: map<string, string>): ModelFilters {
    ModelFilters(Substitute(Directive(f), macros))
  }

  /** One model entry resolved against the macro table and the global default. */
  function LoadModel(m: RawModel, macros: map<string, string>, global: bool): (r: ModelConfig)
    ensures r.sendLoadingState.Some?
    ensures m.sendLoadingState.Some? ==> r.sendLoadingState == m.sendLoadingState
    ensures m.sendLoadingState.None? ==> r.sendLoadingState == Some(global)
    ensures r.proxy == m.proxy
  {
    var state := if m.sendLoadingState.Some? then m.sendLoadingState else Some(global);
    ModelConfig(Substitute(m.cmd, macros), m.proxy, LoadFilters(m.filters, macros), state)
  }

  function LoadConfig(c: RawConfig): (r: LoadedConfig)
    ensures r.sendLoadingState == c.sendLoadingState
    ensures r.models.Keys == c.models.Keys
  {
    LoadedConfig(
      c.sendLoadingState,
      map id | id in c.models :: LoadModel(c.models[id], c.macros, c.sendLoadingState))
  }

  // ---------------------------------------------------------------------------
  // Properties of loading

  /** Every loaded model carries a loading-state flag, and it is the override
      the entry wrote or else the global default. */
  lemma LoadedLoadingState(c: RawConfig, id: string)
    requires id in c.models
    ensures LoadConfig(c).models[id].sendLoadingState.Some?
    ensures LoadConfig(c).models[id].sendLoadingState.value ==
            match c.models[id].sendLoadingState
            case Some(b) => b
            case None => c.sendLoadingState
  {
  }

  /** The legacy key is an alias: a directive written under either key loads to
      the same filters. */
  lemma LegacyAlias(text: string, macros: map<string, string>)
    ensures LoadFilters(RawFilters("", text), macros) == LoadFilters(RawFilters(text, ""), macros)
  {
  }

  /** When both keys are written the canonical one wins. */
  lemma CanonicalWins(text: string, legacy: string, macros: map<string, string>)
    requires text != []
    ensures LoadFilters(RawFilters(text, legacy), macros) == LoadFilters(RawFilters(text, ""), macros)
  {
  }

  /** A directive made of plain text and placeholders loads to its expansion:
      each placeholder whose name the table knows is replaced by its value,
      the rest of the text is kept character for character. */
  lemma LoadedDirective(segs: seq<Segment>, legacy: bool, macros: map<string, string>)
    requires forall seg :: seg in segs ==> WellFormed(seg)
    ensures var f := if legacy then RawFilters("", Render(segs)) else RawFilters(Render(segs), "");
            LoadFilters(f, macros).stripParams == Expand(segs, macros)
  {
    SubstituteRendered(segs, macros);
  }

  // ---------------------------------------------------------------------------
  // The filter scenario: a macro `default_strip` inserted into the directive of
  // one model under the canonical key and of another under the legacy key.

  lemma ScenarioDirective(before: string, name: string, after: string, written: string)
    requires before == "model, top_k, top_k, temperature, " && name == "default_strip" && after == ", , ,"
    requires written == before + "${default_strip}" + after
    ensures written == Render([Literal(before), Reference(name), Literal(after)])
    ensures forall seg :: seg in [Literal(before), Reference(name), Literal(after)] ==> WellFormed(seg)
  {
    var segs := [Literal(before), Reference(name), Literal(after)];
    ScenarioPlaceholder(name, "${default_strip}");
    assert Render(segs[2..]) == after by {
      assert segs[2..][1..] == [];
    }
    assert Render(segs[1..]) == Placeholder(name) + after;
    ScenarioWellFormed(before, name, after);
  }

  lemma ScenarioPlaceholder(name: string, placeholder: string)
    requires name == "default_strip" && placeholder == "${default_strip}"
    ensures Placeholder(name) == placeholder
  {
  }

  lemma ScenarioWellFormed(before: string, name: string, after: string)
    requires before == "model, top_k, top_k, temperature, " && name == "default_strip" && after == ", , ,"
    ensures WellFormed(Literal(before)) && WellFormed(Reference(name)) && WellFormed(Literal(after))
  {
  }

  lemma ScenarioExpansion(before: string, name: string, after: string, value: string, macros: map<string, string>)
    requires before == "model, top_k, top_k, temperature, " && name == "default_strip" && after == ", , ,"
    requires value == "temperature, top_p" && macros == map[name := value]
    ensures Expand([Literal(before), Reference(name), Literal(after)], macros) ==
            "model, top_k, top_k, " + "temperature, " + "temperature, top_p" + ", , ,"
  {
    var segs := [Literal(before), Reference(name), Literal(after)];
    assert Expand(segs[2..], macros) == after by {
      assert segs[2..][1..] == [];
    }
    assert Expand(segs[1..], macros) == value + after;
  }

  /** Each model of the scenario loads to the expanded directive, and its
      sanitized list is `temperature`, `top_k`, `top_p`. */
  lemma FilterScenario(c: RawConfig, written: string, id: string)
    requires written == "model, top_k, top_k, temperature, " + "${default_strip}" + ", , ,"
    requires c.macros == map["default_strip" := "temperature, top_p"]
    requires forall k :: k in c.models ==>
               c.models[k].filters == RawFilters(written, "") || c.models[k].filters == RawFilters("", written)
    requires id in c.models
    ensures LoadConfig(c).models[id].filters.stripParams ==
            "model, top_k, top_k, " + "temperature, " + "temperature, top_p" + ", , ,"
    ensures SanitizedStripParams(LoadConfig(c).models[id].filters) == ["temperature", "top_k", "top_p"]
  {
    var before, name, after := "model, top_k, top_k, temperature, ", "default_strip", ", , ,";
    var segs := [Literal(before), Reference(name), Literal(after)];
    ScenarioDirective(before, name, after, written);
    ScenarioExpansion(before, name, after, "temperature, top_p", c.macros);
    LoadedDirective(segs, c.models[id].filters.stripParams == [], c.macros);
    StripParamsExample(LoadConfig(c).models[id].filters.stripParams);
  }

  // ---------------------------------------------------------------------------
  // The loading-state scenario: global default on, one model turning it off and
  // one saying nothing.

  lemma LoadingStateScenario(c: RawConfig)
    requires c.sendLoadingState
    requires "model1" in c.models && c.models["model1"].sendLoadingState == Some(false)
    requires "model2" in c.models && c.models["model2"].sendLoadingState == None
    ensures LoadConfig(c).sendLoadingState
    ensures LoadConfig(c).models["model1"].sendLoadingState == Some(false)
    ensures LoadConfig(c).models["model2"].sendLoadingState == Some(true)
  {
  }
}
