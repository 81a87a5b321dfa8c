/**
 * The location configuration of the repeater (`repeater` and `debug`
 * directives) and how a location inherits it from the enclosing level.
 */
module Config {
  import opened Common

  /** nginx's marker for a flag directive that was not given. */
  const NGX_CONF_UNSET: int := -1

  /** `repeater` is None while its data pointer is NULL (the directive was not given). */
  datatype LocConf = LocConf(repeater: Option<string>, debug: int)

  /**
   * `ngx_http_repeater_merge_loc_conf`: a directive the child does not set
   * takes the parent's value, or the default ("" and 0) when neither sets it.
   */
  function MergeLocConf(parent: LocConf, child: LocConf): (merged: LocConf)
    ensures merged.repeater.Some? && merged.debug != NGX_CONF_UNSET
    ensures child.repeater.Some? ==> merged.repeater == child.repeater
    ensures child.repeater.None? ==>
              merged.repeater == (if parent.repeater.Some? then parent.repeater else Some(""))
    ensures child.debug != NGX_CONF_UNSET ==> merged.debug == child.debug
    ensures child.debug == NGX_CONF_UNSET ==>
              merged.debug == (if parent.debug != NGX_CONF_UNSET then parent.debug else 0)
  {
    var repeater :=
      if child.repeater.None? then
        (if parent.repeater.Some? then parent.repeater else Some(""))
      else child.repeater;
    var debug :=
      if child.debug == NGX_CONF_UNSET then
        (if parent.debug == NGX_CONF_UNSET then 0 else parent.debug)
      else child.debug;
    LocConf(repeater, debug)
  }

  /**
   * The configuration in force at the innermost of a chain of nested levels
   * (outermost first): each level is merged with the already merged level
   * around it. The outermost level is not merged.
   */
  function Effective(chain: seq<LocConf>): LocConf
    requires |chain| >= 1
  {
    if |chain| == 1 then chain[0]
    else MergeLocConf(Effective(chain[..|chain| - 1]), chain[|chain| - 1])
  }

  /** The `repeater` of the innermost level that sets it. */
  function NearestRepeater(chain: seq<LocConf>): Option<string> {
    if chain == [] then None
    else if chain[|chain| - 1].repeater.Some? then chain[|chain| - 1].repeater
    else NearestRepeater(chain[..|chain| - 1])
  }

  /** The `debug` of the innermost level that sets it. */
  function NearestDebug(chain: seq<LocConf>): int {
    if chain == [] then NGX_CONF_UNSET
    else if chain[|chain| - 1].debug != NGX_CONF_UNSET then chain[|chain| - 1].debug
    else NearestDebug(chain[..|chain| - 1])
  }

  /**
   * Below the outermost level, a location runs with the value of the
   * innermost level that sets each directive, or the default.
   */
  lemma {:induction false} EffectiveIsNearest(chain: seq<LocConf>)
    requires |chain| >= 2
    ensures Effective(chain).repeater ==
            (if NearestRepeater(chain).Some? then NearestRepeater(chain) else Some(""))
    ensures Effective(chain).debug ==
            (if NearestDebug(chain) != NGX_CONF_UNSET then NearestDebug(chain) else 0)
  {
    var init := chain[..|chain| - 1];
    if |chain| > 2 {
      EffectiveIsNearest(init);
    } else {
      assert init == [chain[0]] && init[..0] == [];
      assert NearestRepeater(init) == chain[0].repeater;
      assert NearestDebug(init) == chain[0].debug;
    }
  }

  /** Merging again with the same parent changes nothing. */
  lemma MergeIdempotent(parent: LocConf, child: LocConf)
    ensures MergeLocConf(parent, MergeLocConf(parent, child)) == MergeLocConf(parent, child)
  {
  }
}
