/** `generateFullClassName`: a Tailwind class of the builder, either a plain
    string or an object with modifier prefixes (`hover`, `md`, ...) and a
    name, serialised as the class attribute writes it. */
module ClassNames {
  import opened Strings

  /** A class of an element: a plain string, or `{prefixes, name}`. */
  datatype ClassName =
    | Plain(text: string)
    | Prefixed(prefixes: seq<string>, name: string)

  /** `generateFullClassName(cls)`: a string as it is; otherwise the
      prefixes joined by `:` and followed by `:` (nothing when there are no
      prefixes), then the name. */
  function FullClassName(cls: ClassName): (r: string)
    ensures cls.Prefixed? ==> |r| >= |cls.name| && r[|r| - |cls.name|..] == cls.name
  {
    match cls
    case Plain(text) => text
    case Prefixed(prefixes, name) =>
      (if |prefixes| > 0 then Join(prefixes, ':') + ":" else "") + name
  }

  /** The total length of `parts`. */
  function TotalLength(parts: seq<string>): nat
  {
    if parts == [] then 0 else TotalLength(parts[..|parts| - 1]) + |parts[|parts| - 1]|
  }

  /** Joining `parts` adds one separator between each two of them. */
  lemma {:induction false} JoinLength(parts: seq<string>, sep: char)
    requires parts != []
    ensures |Join(parts, sep)| == TotalLength(parts) + |parts| - 1
  {
    if |parts| > 1 {
      JoinLength(parts[..|parts| - 1], sep);
      JoinLast(parts, sep);
    } else {
      assert Join(parts, sep) == parts[0];
    }
  }

  /** The join of several parts ends with the join of all but the last,
      the separator and the last part. */
  lemma JoinLast(parts: seq<string>, sep: char)
    requires |parts| > 1
    ensures Join(parts, sep) == Join(parts[..|parts| - 1], sep) + [sep] + parts[|parts| - 1]
  {
    JoinSnoc(parts[..|parts| - 1], parts[|parts| - 1], sep);
    assert parts[..|parts| - 1] + [parts[|parts| - 1]] == parts;
  }

  /** A string class comes back unchanged; an object class without prefixes
      gives its name; with prefixes, it gives the `:`-join of the prefixes
      followed by the name. */
  lemma FullClassNameCases(cls: ClassName)
    ensures cls.Plain? ==> FullClassName(cls) == cls.text
    ensures cls.Prefixed? && cls.prefixes == [] ==> FullClassName(cls) == cls.name
    ensures cls.Prefixed? ==> FullClassName(cls) == Join(cls.prefixes + [cls.name], ':')
  {
    if cls.Prefixed? {
      if cls.prefixes == [] {
        assert Join([cls.name], ':') == cls.name;
      } else {
        JoinSnoc(cls.prefixes, cls.name, ':');
      }
    }
  }

  /** The length of an object class's serialisation: the prefixes, one `:`
      after each, and the name. */
  lemma FullClassNameLength(cls: ClassName)
    requires cls.Prefixed?
    ensures |FullClassName(cls)| == TotalLength(cls.prefixes) + |cls.prefixes| + |cls.name|
  {
    if cls.prefixes != [] {
      JoinLength(cls.prefixes, ':');
    }
  }

  /** `classes.map(generateFullClassName)`. */
  function FullClassNames(classes: seq<ClassName>): (r: seq<string>)
    ensures |r| == |classes|
    ensures forall i :: 0 <= i < |classes| ==> r[i] == FullClassName(classes[i])
  {
    if classes == [] then [] else FullClassNames(classes[..|classes| - 1]) + [FullClassName(classes[|classes| - 1])]
  }
}
