/**
 * The launcher materializer `create_launcher`: the template text is rewritten by
 * a replace-all for each (placeholder, value) pair in turn, and the result is
 * written to the target file with mode 0o755.
 */
module Launchers {
  import opened PyStr

  /** `0o755`: rwx for the owner, r-x for group and others. */
  const ExecutableMode: int := 0x1ED

  /** A (placeholder, value) pair of the replacement map, in iteration order. */
  type Replacement = (string, string)

  /** A file the installer writes: where, the text, and the permission bits it sets. */
  datatype Launcher = Launcher(path: string, content: string, mode: int)

  /** The template after one full replace-all pass per pair, first pair first. Pairs that
      replace a placeholder by itself leave the template as it is. */
  function ApplyReplacements(content: string, replacements: seq<Replacement>): (r: string)
    ensures (forall k :: 0 <= k < |replacements| ==> replacements[k].0 == replacements[k].1) ==> r == content
    decreases |replacements|
  {
    if replacements == [] then content
    else
      ReplaceAllSelf(content, replacements[0].0);
      ApplyReplacements(ReplaceAll(content, replacements[0].0, replacements[0].1), replacements[1..])
  }

  /** Applying two lists of pairs one after the other is applying their concatenation. */
  lemma {:induction false} ApplyReplacementsAppend(content: string, a: seq<Replacement>, b: seq<Replacement>)
    ensures ApplyReplacements(content, a + b) == ApplyReplacements(ApplyReplacements(content, a), b)
    decreases |a|
  {
    if a == [] {
      assert a + b == b;
    } else {
      assert (a + b)[0] == a[0];
      assert (a + b)[1..] == a[1..] + b;
      ApplyReplacementsAppend(ReplaceAll(content, a[0].0, a[0].1), a[1..], b);
    }
  }

  /** `create_launcher(source, target, replacements)` given the template's text. */
  method CreateLauncher(template: string, targetFilename: string, replacements: seq<Replacement>)
    returns (l: Launcher)
    ensures l.path == targetFilename
    ensures l.content == ApplyReplacements(template, replacements)
    ensures l.mode == ExecutableMode
    ensures replacements == [] ==> l.content == template
  {
    var content := template;
    var i := 0;
    while i < |replacements|
      invariant 0 <= i <= |replacements|
      invariant content == ApplyReplacements(template, replacements[..i])
    {
      var (fromStr, toStr) := replacements[i];
      content := ReplaceAll(content, fromStr, toStr);
      ApplyReplacementsAppend(template, replacements[..i], [replacements[i]]);
      assert replacements[..i + 1] == replacements[..i] + [replacements[i]];
      i := i + 1;
    }
    assert replacements[..i] == replacements;
    l := Launcher(targetFilename, content, ExecutableMode);
  }

  /** With a single non-empty placeholder, the text is the template's pieces between the
      placeholder's occurrences, glued together with the value: the pieces rebuild the
      template when glued with the placeholder, and none of them holds the placeholder. */
  lemma SinglePlaceholder(template: string, placeholder: string, value: string)
    requires placeholder != []
    ensures ApplyReplacements(template, [(placeholder, value)]) == JoinWith(SplitOn(template, placeholder), value)
    ensures JoinWith(SplitOn(template, placeholder), placeholder) == template
    ensures forall k, i :: 0 <= k < |SplitOn(template, placeholder)| ==>
              !OccursAt(SplitOn(template, placeholder)[k], placeholder, i)
  {
    ReplaceAllJoinsPieces(template, placeholder, value);
    JoinSplitOn(template, placeholder);
    SplitOnPiecesFree(template, placeholder);
  }

  /** The order of the pairs matters: when the value of placeholder `p` is placeholder
      `q` itself (and `p` does not hold `q`), the pass for `q` rewrites it again only if it
      comes after the pass for `p`. */
  lemma OrderMatters(p: string, q: string, v: string)
    requires p != [] && q != []
    requires forall i :: 0 <= i <= |p| ==> !OccursAt(p, q, i)
    ensures ApplyReplacements(p, [(p, q), (q, v)]) == v
    ensures ApplyReplacements(p, [(q, v), (p, q)]) == q
  {
    var pFirst: seq<Replacement> := [(p, q), (q, v)];
    var qFirst: seq<Replacement> := [(q, v), (p, q)];
    calc {
      ApplyReplacements(p, pFirst);
      ApplyReplacements(ReplaceAll(p, p, q), pFirst[1..]);
      { ReplaceAllWhole(p, q); assert pFirst[1..] == [(q, v)]; }
      ApplyReplacements(q, [(q, v)]);
      ApplyReplacements(ReplaceAll(q, q, v), []);
      { ReplaceAllWhole(q, v); }
      v;
    }
    calc {
      ApplyReplacements(p, qFirst);
      ApplyReplacements(ReplaceAll(p, q, v), qFirst[1..]);
      { ReplaceAllAbsent(p, q, v); assert qFirst[1..] == [(p, q)]; }
      ApplyReplacements(p, [(p, q)]);
      ApplyReplacements(ReplaceAll(p, p, q), []);
      { ReplaceAllWhole(p, q); }
      q;
    }
  }
}
