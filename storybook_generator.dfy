/** `generateStorybook` of the UI builder: a pre-order walk of the element
    tree that emits one story for every container marked as a story
    component, with its documentation and its class variations. The story
    text is kept structurally: its name, the documentation it uses and its
    variations. */
module StorybookGenerator {
  import opened Strings
  import opened ClassNames

  /** An element of the builder's tree; `isStory` is the truthiness of its
      `isStoryComponent` flag, and an element without `children` has none. */
  datatype Element = Element(id: string, kind: string, isStory: bool,
                             classes: seq<ClassName>, children: seq<Element>)

  /** A documented property, as `argTypes` lists it. */
  datatype Prop = Prop(name: string, description: string, propType: string)

  /** An entry of `componentDocs`. */
  datatype Docs = Docs(description: string, props: seq<Prop>)

  /** A story export: its name and the classes it passes as `className`. */
  datatype Variation = Variation(name: string, classes: seq<string>)

  /** One entry of the result: the component name, and the parts of the
      story text that depend on the element. */
  datatype Story = Story(name: string, docs: Docs, variations: seq<Variation>)

  /** An element together with the path of indices that reaches it. */
  datatype Node = Node(element: Element, path: seq<nat>)

  // ---------------------------------------------------------------------
  // Names and documentation

  /** `getComponentName(element)`. */
  function ComponentName(e: Element): (r: string)
    ensures |r| == 9 + |e.id| && r[..9] == "Component" && r[9..] == e.id
  {
    "Component" + e.id
  }

  /** Whether `processElement` emits a story for `e`. */
  predicate IsStory(e: Element)
  {
    e.kind == "container" && e.isStory
  }

  /** The decimal renderings of a path's indices. */
  function PathParts(path: seq<nat>): (r: seq<string>)
    ensures |r| == |path|
    ensures forall i :: 0 <= i < |path| ==> r[i] == Decimal(path[i])
  {
    if path == [] then [] else PathParts(path[..|path| - 1]) + [Decimal(path[|path| - 1])]
  }

  /** `path.join('-')`, the key of `componentDocs`. */
  function DocsKey(path: seq<nat>): string
  {
    Join(PathParts(path), '-')
  }

  /** `componentDocs[path.join('-')] || { description: '', props: [] }`. */
  function DocsFor(componentDocs: map<string, Docs>, path: seq<nat>): (r: Docs)
    ensures DocsKey(path) in componentDocs ==> r == componentDocs[DocsKey(path)]
    ensures DocsKey(path) !in componentDocs ==> r == Docs("", [])
  {
    var key := DocsKey(path);
    if key in componentDocs then componentDocs[key] else Docs("", [])
  }

  /** The key of a top-level container is its index. */
  lemma TopLevelDocsKey(i: nat)
    ensures DocsKey([i]) == Decimal(i)
  {
    assert PathParts([i]) == [Decimal(i)];
  }

  // ---------------------------------------------------------------------
  // Variations

  /** The responsive prefixes, in the order variations are generated. */
  const Breakpoints: seq<string> := ["sm", "md", "lg", "xl", "2xl"]

  /** The state prefixes, in the order variations are generated. */
  const States: seq<string> := ["hover", "focus", "active", "disabled"]

  /** `c.toUpperCase()` for one character of a prefix. */
  function Upper(c: char): char
  {
    if 'a' <= c <= 'z' then (c as int - 'a' as int + 'A' as int) as char else c
  }

  /** `s.charAt(0).toUpperCase() + s.slice(1)`. */
  function Capitalize(s: string): (r: string)
    ensures |r| == |s|
  {
    if s == [] then "" else [Upper(s[0])] + s[1..]
  }

  /** The name of the variation for `prefix`. */
  function Label(prefix: string, suffix: string): string
  {
    Capitalize(prefix) + suffix
  }

  /** `classes.filter(cls => typeof cls === 'object' &&
      cls.name.startsWith(prefix + ':')).map(cls => cls.name)`: the names of
      the object classes whose name starts with the prefix and a colon, in
      order. String classes never match. */
  function Matching(classes: seq<ClassName>, prefix: string): seq<string>
  {
    if classes == [] then []
    else
      var c := classes[|classes| - 1];
      Matching(classes[..|classes| - 1], prefix) +
      (if c.Prefixed? && StartsWith(c.name, prefix + ":") then [c.name] else [])
  }

  /** The `Default` variation: every class through `generateFullClassName`. */
  function Default(classes: seq<ClassName>): Variation
  {
    Variation("Default", FullClassNames(classes))
  }

  /** The variation pushed for `prefix`: its label, with the default
      classes followed by the matching names. */
  function VariationFor(classes: seq<ClassName>, prefix: string, suffix: string): Variation
  {
    Variation(Label(prefix, suffix), FullClassNames(classes) + Matching(classes, prefix))
  }

  /** The variations the loop over `prefixes` pushes: one per prefix that
      some class matches. */
  function Extras(classes: seq<ClassName>, prefixes: seq<string>, suffix: string): seq<Variation>
  {
    if prefixes == [] then []
    else
      var p := prefixes[|prefixes| - 1];
      Extras(classes, prefixes[..|prefixes| - 1], suffix) +
      (if Matching(classes, p) != [] then [VariationFor(classes, p, suffix)] else [])
  }

  /** `generateVariations(element)` on an element's classes. */
  function Variations(classes: seq<ClassName>): seq<Variation>
  {
    [Default(classes)] + Extras(classes, Breakpoints, "Screen") + Extras(classes, States, "State")
  }

  /** `generateVariations`: the default variation, then a loop over the
      breakpoints and a loop over the states, each pushing a variation for
      every prefix some class matches. */
  method GenerateVariations(classes: seq<ClassName>) returns (variations: seq<Variation>)
    ensures variations == Variations(classes)
  {
    variations := [Default(classes)];
    variations := PushVariations(classes, Breakpoints, "Screen", variations);
    variations := PushVariations(classes, States, "State", variations);
  }

  /** One `forEach` of `generateVariations` over `prefixes`: a variation is
      pushed for every prefix some class matches, holding the classes of
      the first (default) variation and the matching names. */
  method PushVariations(classes: seq<ClassName>, prefixes: seq<string>, suffix: string, start: seq<Variation>)
    returns (variations: seq<Variation>)
    requires start != [] && start[0] == Default(classes)
    ensures variations == start + Extras(classes, prefixes, suffix)
  {
    variations := start;
    for i := 0 to |prefixes|
      invariant variations == start + Extras(classes, prefixes[..i], suffix)
    {
      assert prefixes[..i + 1][..i] == prefixes[..i];
      var matching := Matching(classes, prefixes[i]);
      if |matching| > 0 {
        variations := variations + [Variation(Label(prefixes[i], suffix), variations[0].classes + matching)];
      }
    }
    assert prefixes[..|prefixes|] == prefixes;
  }

  /** The matching names are exactly the names of the object classes that
      start with the prefix and a colon, in their original order. */
  lemma {:induction false} MatchingMeaning(classes: seq<ClassName>, prefix: string)
    ensures forall n :: n in Matching(classes, prefix) <==>
      exists j :: 0 <= j < |classes| && classes[j].Prefixed? && classes[j].name == n &&
                  StartsWith(n, prefix + ":")
    ensures |Matching(classes, prefix)| <= |classes|
  {
    if classes != [] {
      var init := classes[..|classes| - 1];
      MatchingMeaning(init, prefix);
      forall n
        ensures n in Matching(classes, prefix) <==>
          exists j :: 0 <= j < |classes| && classes[j].Prefixed? && classes[j].name == n &&
                      StartsWith(n, prefix + ":")
      {
        if n in Matching(init, prefix) {
          var j :| 0 <= j < |init| && init[j].Prefixed? && init[j].name == n && StartsWith(n, prefix + ":");
          assert classes[j] == init[j];
        }
        if exists j :: 0 <= j < |classes| && classes[j].Prefixed? && classes[j].name == n &&
                       StartsWith(n, prefix + ":") {
          var j :| 0 <= j < |classes| && classes[j].Prefixed? && classes[j].name == n &&
                   StartsWith(n, prefix + ":");
          if j < |init| {
            assert init[j] == classes[j];
          }
        }
      }
    }
  }

  /** String classes never trigger a variation. */
  lemma {:induction false} PlainClassesMatchNothing(classes: seq<ClassName>, prefix: string)
    requires forall j :: 0 <= j < |classes| ==> classes[j].Plain?
    ensures Matching(classes, prefix) == []
  {
    if classes != [] {
      PlainClassesMatchNothing(classes[..|classes| - 1], prefix);
    }
  }

  /** The labels of distinct prefixes of a list are distinct. */
  predicate DistinctLabels(prefixes: seq<string>, suffix: string)
  {
    forall i, j :: 0 <= i < j < |prefixes| ==> Label(prefixes[i], suffix) != Label(prefixes[j], suffix)
  }

  /** Every variation the loop over `prefixes` pushes belongs to a prefix
      that some class matches, and carries the default classes followed by
      the matching names; there is at most one per prefix. */
  lemma {:induction false} ExtrasSound(classes: seq<ClassName>, prefixes: seq<string>, suffix: string)
    ensures |Extras(classes, prefixes, suffix)| <= |prefixes|
    ensures forall v :: v in Extras(classes, prefixes, suffix) ==>
      exists k :: 0 <= k < |prefixes| && Matching(classes, prefixes[k]) != [] &&
                  v == VariationFor(classes, prefixes[k], suffix)
  {
    if prefixes != [] {
      var init := prefixes[..|prefixes| - 1];
      ExtrasSound(classes, init, suffix);
      forall v | v in Extras(classes, prefixes, suffix)
        ensures exists k :: 0 <= k < |prefixes| && Matching(classes, prefixes[k]) != [] &&
                  v == VariationFor(classes, prefixes[k], suffix)
      {
        if v in Extras(classes, init, suffix) {
          var k :| 0 <= k < |init| && Matching(classes, init[k]) != [] &&
                   v == VariationFor(classes, init[k], suffix);
          assert init[k] == prefixes[k];
        } else {
          assert prefixes[|prefixes| - 1] == prefixes[|prefixes| - 1];
        }
      }
    }
  }

  /** Every prefix that some class matches gets its variation. */
  lemma ExtrasComplete(classes: seq<ClassName>, prefixes: seq<string>, suffix: string, k: nat)
    requires k < |prefixes| && Matching(classes, prefixes[k]) != []
    ensures VariationFor(classes, prefixes[k], suffix) in Extras(classes, prefixes, suffix)
  {
    var upTo := prefixes[..k + 1];
    assert upTo[..k] == prefixes[..k] && upTo[k] == prefixes[k];
    var head := Extras(classes, upTo, suffix);
    assert head == Extras(classes, prefixes[..k], suffix) + [VariationFor(classes, prefixes[k], suffix)];
    assert head[|head| - 1] == VariationFor(classes, prefixes[k], suffix);
    ExtrasInOrder(classes, prefixes, suffix, k + 1);
    assert Extras(classes, prefixes, suffix)[|head| - 1] == head[|head| - 1];
  }

  /** With distinct labels, a variation labelled for a prefix is there
      exactly when some class matches that prefix. */
  lemma ExtrasMeaning(classes: seq<ClassName>, prefixes: seq<string>, suffix: string, k: nat)
    requires DistinctLabels(prefixes, suffix) && k < |prefixes|
    ensures (exists v :: v in Extras(classes, prefixes, suffix) && v.name == Label(prefixes[k], suffix)) <==>
            Matching(classes, prefixes[k]) != []
  {
    ExtrasSound(classes, prefixes, suffix);
    if Matching(classes, prefixes[k]) != [] {
      ExtrasComplete(classes, prefixes, suffix, k);
    }
  }

  /** A breakpoint variation is generated exactly for the breakpoints some
      object class's name starts with, and likewise a state variation for
      the states. */
  lemma VariationsPresence(classes: seq<ClassName>)
    ensures forall k :: 0 <= k < |Breakpoints| ==>
      ((exists v :: v in Extras(classes, Breakpoints, "Screen") && v.name == Label(Breakpoints[k], "Screen")) <==>
       Matching(classes, Breakpoints[k]) != [])
    ensures forall k :: 0 <= k < |States| ==>
      ((exists v :: v in Extras(classes, States, "State") && v.name == Label(States[k], "State")) <==>
       Matching(classes, States[k]) != [])
  {
    LabelsDistinct();
    forall k | 0 <= k < |Breakpoints|
      ensures (exists v :: v in Extras(classes, Breakpoints, "Screen") && v.name == Label(Breakpoints[k], "Screen")) <==>
              Matching(classes, Breakpoints[k]) != []
    {
      ExtrasMeaning(classes, Breakpoints, "Screen", k);
    }
    forall k | 0 <= k < |States|
      ensures (exists v :: v in Extras(classes, States, "State") && v.name == Label(States[k], "State")) <==>
              Matching(classes, States[k]) != []
    {
      ExtrasMeaning(classes, States, "State", k);
    }
  }

  /** The variations for earlier prefixes come first: those of the first
      `i` prefixes are a prefix of the whole list. */
  lemma {:induction false} ExtrasInOrder(classes: seq<ClassName>, prefixes: seq<string>, suffix: string, i: nat)
    requires i <= |prefixes|
    ensures Extras(classes, prefixes[..i], suffix) <= Extras(classes, prefixes, suffix)
    decreases |prefixes|
  {
    if i < |prefixes| {
      var init := prefixes[..|prefixes| - 1];
      assert init[..i] == prefixes[..i];
      ExtrasInOrder(classes, init, suffix, i);
    } else {
      assert prefixes[..i] == prefixes;
    }
  }

  /** A label is the prefix with its first character in upper case,
      followed by the suffix. */
  lemma LabelSpelling(p: string, suffix: string)
    requires p != []
    ensures Label(p, suffix) == [Upper(p[0])] + p[1..] + suffix
    ensures |Label(p, suffix)| == |p| + |suffix| && Label(p, suffix)[|p|..] == suffix
  {
    assert Label(p, suffix) == ([Upper(p[0])] + p[1..]) + suffix;
  }

  /** Three of the variation names: a letter is capitalised, a digit is
      kept. */
  lemma LabelExamples()
    ensures Label("sm", "Screen") == "SmScreen"
    ensures Label("2xl", "Screen") == "2xlScreen"
    ensures Label("hover", "State") == "HoverState"
  {
    assert Label("sm", "Screen") == "SmScreen" by { assert Capitalize("sm") == "Sm"; }
    assert Label("2xl", "Screen") == "2xlScreen" by { assert Capitalize("2xl") == "2xl"; }
    assert Label("hover", "State") == "HoverState" by { assert Capitalize("hover") == "Hover"; }
  }

  /** A label starts with its prefix's first character in upper case. */
  lemma LabelHead(p: string, suffix: string)
    requires p != []
    ensures |Label(p, suffix)| > 0 && Label(p, suffix)[0] == Upper(p[0])
  {
  }

  /** The breakpoint variations have distinct names, and so do the state
      variations: the prefixes of each list start with distinct letters. */
  lemma LabelsDistinct()
    ensures DistinctLabels(Breakpoints, "Screen") && DistinctLabels(States, "State")
  {
    var bs := "smlx2";
    assert forall i :: 0 <= i < 5 ==> Breakpoints[i] != [] && Breakpoints[i][0] == bs[i];
    forall i, j | 0 <= i < j < 5
      ensures Label(Breakpoints[i], "Screen") != Label(Breakpoints[j], "Screen")
    {
      LabelHead(Breakpoints[i], "Screen");
      LabelHead(Breakpoints[j], "Screen");
    }
    var ss := "hfad";
    assert forall i :: 0 <= i < 4 ==> States[i] != [] && States[i][0] == ss[i];
    forall i, j | 0 <= i < j < 4
      ensures Label(States[i], "State") != Label(States[j], "State")
    {
      LabelHead(States[i], "State");
      LabelHead(States[j], "State");
    }
  }

  /** The first variation is `Default` with every class serialised in
      order; the breakpoint variations follow, then the state variations,
      so there are at most ten; an element with string classes only has the
      default variation alone. */
  lemma VariationsShape(classes: seq<ClassName>)
    ensures Variations(classes)[0] == Variation("Default", FullClassNames(classes))
    ensures 1 <= |Variations(classes)| <= 10
    ensures (forall j :: 0 <= j < |classes| ==> classes[j].Plain?) ==> Variations(classes) == [Default(classes)]
  {
    ExtrasSound(classes, Breakpoints, "Screen");
    ExtrasSound(classes, States, "State");
    if forall j :: 0 <= j < |classes| ==> classes[j].Plain? {
      forall k | 0 <= k < |Breakpoints|
        ensures Matching(classes, Breakpoints[k]) == []
      {
        PlainClassesMatchNothing(classes, Breakpoints[k]);
      }
      forall k | 0 <= k < |States|
        ensures Matching(classes, States[k]) == []
      {
        PlainClassesMatchNothing(classes, States[k]);
      }
      NoMatchNoExtras(classes, Breakpoints, "Screen");
      NoMatchNoExtras(classes, States, "State");
    }
  }

  /** Without any matching class, the loop pushes nothing. */
  lemma {:induction false} NoMatchNoExtras(classes: seq<ClassName>, prefixes: seq<string>, suffix: string)
    requires forall k :: 0 <= k < |prefixes| ==> Matching(classes, prefixes[k]) == []
    ensures Extras(classes, prefixes, suffix) == []
  {
    if prefixes != [] {
      NoMatchNoExtras(classes, prefixes[..|prefixes| - 1], suffix);
    }
  }

  // ---------------------------------------------------------------------
  // The walk

  /** The nodes of the tree under `e` in pre-order: `e` itself, then the
      nodes under each child in turn. */
  function PreOrder(e: Element, path: seq<nat>): (r: seq<Node>)
    ensures |r| >= 1 && r[0] == Node(e, path)
    decreases e, 1, 0
  {
    [Node(e, path)] + ChildrenPreOrder(e, path, |e.children|)
  }

  /** The nodes under the first `i` children of `e`, in pre-order. */
  function ChildrenPreOrder(e: Element, path: seq<nat>, i: nat): seq<Node>
    requires i <= |e.children|
    decreases e, 0, i
  {
    if i == 0 then []
    else ChildrenPreOrder(e, path, i - 1) + PreOrder(e.children[i - 1], path + [i - 1])
  }

  /** The nodes under the first `i` top-level containers, in pre-order. */
  function ForestPreOrder(containers: seq<Element>, i: nat): seq<Node>
    requires i <= |containers|
  {
    if i == 0 then []
    else ForestPreOrder(containers, i - 1) + PreOrder(containers[i - 1], [i - 1])
  }

  /** The story of one node. */
  function StoryFor(n: Node, componentDocs: map<string, Docs>): Story
  {
    Story(ComponentName(n.element), DocsFor(componentDocs, n.path), Variations(n.element.classes))
  }

  /** The stories of the story containers among `nodes`, in order. */
  function StoriesOf(nodes: seq<Node>, componentDocs: map<string, Docs>): seq<Story>
  {
    if nodes == [] then []
    else
      var n := nodes[|nodes| - 1];
      StoriesOf(nodes[..|nodes| - 1], componentDocs) +
      (if IsStory(n.element) then [StoryFor(n, componentDocs)] else [])
  }

  /** `generateStorybook(containers, ..., componentDocs)`. */
  function Storybook(containers: seq<Element>, componentDocs: map<string, Docs>): seq<Story>
  {
    StoriesOf(ForestPreOrder(containers, |containers|), componentDocs)
  }

  /** The stories of two runs of nodes, one after the other. */
  lemma {:induction false} StoriesOfAppend(a: seq<Node>, b: seq<Node>, componentDocs: map<string, Docs>)
    ensures StoriesOf(a + b, componentDocs) == StoriesOf(a, componentDocs) + StoriesOf(b, componentDocs)
    decreases |b|
  {
    if b != [] {
      var init := b[..|b| - 1];
      StoriesOfAppend(a, init, componentDocs);
      assert (a + b)[..|a + b| - 1] == a + init;
    } else {
      assert a + b == a;
    }
  }

  /** Pushing two runs of stories in turn pushes their concatenation. */
  lemma AppendAssociates<T>(a: seq<T>, b: seq<T>, c: seq<T>)
    ensures a + b + c == a + (b + c)
  {
  }

  /** `processElement(element, parentPath)`: the story of the element if
      it is a story container, then the stories under each child in turn,
      pushed onto `stories`. */
  method ProcessElement(e: Element, parentPath: seq<nat>, stories: seq<Story>, componentDocs: map<string, Docs>)
    returns (r: seq<Story>)
    ensures r == stories + StoriesOf(PreOrder(e, parentPath), componentDocs)
    decreases e, 1
  {
    ghost var own := StoriesOf([Node(e, parentPath)], componentDocs);
    ghost var below := StoriesOf(ChildrenPreOrder(e, parentPath, |e.children|), componentDocs);
    r := stories;
    if e.kind == "container" && e.isStory {
      var componentName := ComponentName(e);
      var docs := DocsFor(componentDocs, parentPath);
      var variations := GenerateVariations(e.classes);
      r := r + [Story(componentName, docs, variations)];
    }
    assert r == stories + own by {
      OwnStory(e, parentPath, componentDocs);
    }
    r := ProcessChildren(e, parentPath, r, componentDocs);
    assert StoriesOf(PreOrder(e, parentPath), componentDocs) == own + below by {
      StoriesOfAppend([Node(e, parentPath)], ChildrenPreOrder(e, parentPath, |e.children|), componentDocs);
    }
    assert r == stories + (own + below) by {
      AppendAssociates(stories, own, below);
    }
  }

  /** `element.children.forEach((child, index) => processElement(child,
      [...parentPath, index]))`. */
  method ProcessChildren(e: Element, parentPath: seq<nat>, stories: seq<Story>, componentDocs: map<string, Docs>)
    returns (r: seq<Story>)
    ensures r == stories + StoriesOf(ChildrenPreOrder(e, parentPath, |e.children|), componentDocs)
    decreases e, 0
  {
    r := stories;
    for i := 0 to |e.children|
      invariant r == stories + StoriesOf(ChildrenPreOrder(e, parentPath, i), componentDocs)
    {
      r := ProcessElement(e.children[i], parentPath + [i], r, componentDocs);
      ChildStories(e, parentPath, i, componentDocs, stories);
    }
  }

  /** The stories under the first `i + 1` children are those under the
      first `i` followed by those under child `i`. */
  lemma ChildStories(e: Element, path: seq<nat>, i: nat, componentDocs: map<string, Docs>, stories: seq<Story>)
    requires i < |e.children|
    ensures StoriesOf(ChildrenPreOrder(e, path, i + 1), componentDocs) ==
            StoriesOf(ChildrenPreOrder(e, path, i), componentDocs) +
            StoriesOf(PreOrder(e.children[i], path + [i]), componentDocs)
    ensures stories + StoriesOf(ChildrenPreOrder(e, path, i), componentDocs) +
            StoriesOf(PreOrder(e.children[i], path + [i]), componentDocs) ==
            stories + StoriesOf(ChildrenPreOrder(e, path, i + 1), componentDocs)
  {
    StoriesOfAppend(ChildrenPreOrder(e, path, i), PreOrder(e.children[i], path + [i]), componentDocs);
    AppendAssociates(stories, StoriesOf(ChildrenPreOrder(e, path, i), componentDocs),
                     StoriesOf(PreOrder(e.children[i], path + [i]), componentDocs));
  }

  /** The stories of a single node: its own story if it is a story
      container, nothing otherwise. */
  lemma OwnStory(e: Element, path: seq<nat>, componentDocs: map<string, Docs>)
    ensures StoriesOf([Node(e, path)], componentDocs) ==
      if IsStory(e) then [StoryFor(Node(e, path), componentDocs)] else []
  {
    assert [Node(e, path)][..0] == [];
  }

  /** `generateStorybook`: every top-level container processed in order,
      with its index as its path. */
  method GenerateStorybook(containers: seq<Element>, componentDocs: map<string, Docs>) returns (stories: seq<Story>)
    ensures stories == Storybook(containers, componentDocs)
  {
    stories := [];
    for i := 0 to |containers|
      invariant stories == StoriesOf(ForestPreOrder(containers, i), componentDocs)
    {
      StoriesOfAppend(ForestPreOrder(containers, i), PreOrder(containers[i], [i]), componentDocs);
      stories := ProcessElement(containers[i], [i], stories, componentDocs);
    }
  }

  // ---------------------------------------------------------------------
  // Properties of the walk

  /** The stories of a run of nodes are exactly those of its story
      containers: one story per story container, in the order of the run,
      and no others. */
  lemma {:induction false} StoriesOfMeaning(nodes: seq<Node>, componentDocs: map<string, Docs>)
    ensures |StoriesOf(nodes, componentDocs)| == |StoryNodes(nodes)|
    ensures forall i :: 0 <= i < |StoryNodes(nodes)| ==>
      StoriesOf(nodes, componentDocs)[i] == StoryFor(StoryNodes(nodes)[i], componentDocs)
  {
    if nodes != [] {
      StoriesOfMeaning(nodes[..|nodes| - 1], componentDocs);
    }
  }

  /** The story containers among `nodes`, in order. */
  function StoryNodes(nodes: seq<Node>): (r: seq<Node>)
    ensures |r| <= |nodes|
    ensures forall n :: n in r <==> n in nodes && IsStory(n.element)
  {
    if nodes == [] then []
    else
      var n := nodes[|nodes| - 1];
      StoryNodes(nodes[..|nodes| - 1]) + (if IsStory(n.element) then [n] else [])
  }

  /** The storybook holds one story per story container of the tree, in
      pre-order, each named `Component` followed by the element's id. */
  lemma StorybookMeaning(containers: seq<Element>, componentDocs: map<string, Docs>)
    ensures var nodes := StoryNodes(ForestPreOrder(containers, |containers|));
      |Storybook(containers, componentDocs)| == |nodes| &&
      forall i :: 0 <= i < |nodes| ==>
        Storybook(containers, componentDocs)[i] == StoryFor(nodes[i], componentDocs) &&
        Storybook(containers, componentDocs)[i].name == "Component" + nodes[i].element.id
  {
    StoriesOfMeaning(ForestPreOrder(containers, |containers|), componentDocs);
  }

  /** Without story containers there are no stories. */
  lemma {:induction false} NoStoryNodesNoStories(nodes: seq<Node>, componentDocs: map<string, Docs>)
    requires forall j :: 0 <= j < |nodes| ==> !IsStory(nodes[j].element)
    ensures StoriesOf(nodes, componentDocs) == []
  {
    if nodes != [] {
      NoStoryNodesNoStories(nodes[..|nodes| - 1], componentDocs);
    }
  }

  /** In the pre-order of the tree under `e`, `e` comes first and every
      later node lies strictly below it: its path extends `e`'s. */
  lemma {:induction false} PreOrderBelow(e: Element, path: seq<nat>)
    ensures forall j :: 1 <= j < |PreOrder(e, path)| ==>
      |path| < |PreOrder(e, path)[j].path| && PreOrder(e, path)[j].path[..|path|] == path
    decreases e, 1, 0
  {
    ChildrenBelow(e, path, |e.children|);
  }

  /** Every node under the first `i` children of `e` lies strictly below
      `e`. */
  lemma {:induction false} ChildrenBelow(e: Element, path: seq<nat>, i: nat)
    requires i <= |e.children|
    ensures forall n :: n in ChildrenPreOrder(e, path, i) ==>
      |path| < |n.path| && n.path[..|path|] == path
    decreases e, 0, i
  {
    if i > 0 {
      ChildrenBelow(e, path, i - 1);
      var child := e.children[i - 1];
      var cp := path + [i - 1];
      PreOrderBelow(child, cp);
      forall n | n in PreOrder(child, cp)
        ensures |path| < |n.path| && n.path[..|path|] == path
      {
        var j :| 0 <= j < |PreOrder(child, cp)| && PreOrder(child, cp)[j] == n;
        if j > 0 {
          assert n.path[..|cp|] == cp;
          assert n.path[..|path|] == cp[..|path|];
        }
      }
    }
  }
}
