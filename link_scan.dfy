/**
 * The compiled-module metadata the updater reads, as Mono.Cecil exposes it:
 * the types of the main module, each with its base type's name and its
 * properties, each property with its getter and the getter's instructions.
 * Only ldstr instructions and their string operands matter, so every other
 * opcode is one constructor.
 */
module Assembly {
  import opened Common

  datatype Instruction = Ldstr(operand: string) | OtherInstruction

  datatype MethodDefinition = MethodDefinition(hasBody: bool, instructions: seq<Instruction>)

  datatype PropertyDefinition = PropertyDefinition(name: string, getMethod: Option<MethodDefinition>)

  datatype TypeDefinition = TypeDefinition(baseTypeName: Option<string>, properties: seq<PropertyDefinition>)

  datatype ModuleDefinition = ModuleDefinition(types: seq<TypeDefinition>)

  /**
   * One "*.dll" of the mods folder: its path, and what
   * AssemblyDefinition.ReadAssembly made of it (None: reading threw).
   */
  datatype ModFile = ModFile(path: string, assembly: Option<ModuleDefinition>)
}

/**
 * Utils.GetFiles: find the upstream link a mod declares in its Link
 * property, apply the ignore marker, drop unreadable modules and order the
 * entries by path.
 */
module LinkScan {
  import opened Common
  import opened Uris
  import opened Assembly

  const ModBaseType := "ResoniteMod"
  const LinkPropertyName := "Link"
  /** A mod file whose name starts with this is never updated; it is also the value recorded for it. */
  const IgnoreMarker := "_"

  /** A dictionary entry: the module's path and its link value (None stands for null). */
  type UrlEntry = (string, Option<string>)

  /**
   * The filter applied to each string constant: an absolute http or https
   * URI on a host ending in github.com whose text, trailing slashes
   * trimmed, splits at '/' into more than four parts.
   */
  predicate IsAcceptedLink(parse: UriParser, u: string) {
    match parse(u)
    case None => false
    case Some(uri) =>
      && (uri.scheme == UriSchemeHttp || uri.scheme == UriSchemeHttps)
      && EndsWith(uri.host, GitHubHost)
      && |Split(TrimEnd(uri.text, '/'), '/')| > 4
  }

  /** The operands of the ldstr instructions, in instruction order. */
  function StringOperands(instructions: seq<Instruction>): (operands: seq<string>)
    ensures forall k :: 0 <= k < |instructions| && instructions[k].Ldstr? ==> instructions[k].operand in operands
    ensures forall u :: u in operands ==> Ldstr(u) in instructions
  {
    if instructions == [] then []
    else
      (if instructions[0].Ldstr? then [instructions[0].operand] else [])
      + StringOperands(instructions[1..])
  }

  /** FirstOrDefault over the operands with the link filter. */
  function FirstAccepted(parse: UriParser, operands: seq<string>): (url: Option<string>)
    ensures url.None? <==> forall k :: 0 <= k < |operands| ==> !IsAcceptedLink(parse, operands[k])
    ensures url.Some? ==>
      exists k :: 0 <= k < |operands| && operands[k] == url.value && IsAcceptedLink(parse, operands[k])
        && forall j :: 0 <= j < k ==> !IsAcceptedLink(parse, operands[j])
  {
    if operands == [] then None
    else if IsAcceptedLink(parse, operands[0]) then Some(operands[0])
    else
      var rest := FirstAccepted(parse, operands[1..]);
      assert forall k :: 1 <= k < |operands| ==> operands[k] == operands[1..][k - 1];
      rest
  }

  /** The properties of the types deriving from ResoniteMod, in order (Where then SelectMany). */
  function ModProperties(types: seq<TypeDefinition>): (properties: seq<PropertyDefinition>)
    ensures forall p :: p in properties <==>
      exists t :: t in types && t.baseTypeName == Some(ModBaseType) && p in t.properties
  {
    if types == [] then []
    else
      var rest := ModProperties(types[1..]);
      assert forall t :: t in types <==> t == types[0] || t in types[1..];
      (if types[0].baseTypeName == Some(ModBaseType) then types[0].properties else []) + rest
  }

  /** FirstOrDefault(p => p.Name == name). */
  function FindProperty(properties: seq<PropertyDefinition>, name: string): (found: Option<PropertyDefinition>)
    ensures found.None? <==> forall k :: 0 <= k < |properties| ==> properties[k].name != name
    ensures found.Some? ==>
      exists k :: 0 <= k < |properties| && properties[k] == found.value && found.value.name == name
        && forall j :: 0 <= j < k ==> properties[j].name != name
  {
    if properties == [] then None
    else if properties[0].name == name then Some(properties[0])
    else
      var rest := FindProperty(properties[1..], name);
      assert forall k :: 1 <= k < |properties| ==> properties[k] == properties[1..][k - 1];
      rest
  }

  /**
   * The body of the foreach in GetFiles for one file: None when the file
   * adds no dictionary entry (unreadable, or no Link getter with a body),
   * otherwise the value recorded for it.
   */
  function ScanModule(parse: UriParser, file: ModFile): Option<Option<string>> {
    match file.assembly
    case None => None
    case Some(definition) =>
      match FindProperty(ModProperties(definition.types), LinkPropertyName)
      case Some(PropertyDefinition(_, Some(getter))) =>
        if getter.hasBody then
          var url := FirstAccepted(parse, StringOperands(getter.instructions));
          Some(if StartsWith(FileName(file.path), IgnoreMarker) then Some(IgnoreMarker) else url)
        else None
      case _ => None
  }

  /** The unsorted dictionary the foreach builds, in listing order. */
  function Collected(parse: UriParser, files: seq<ModFile>): seq<UrlEntry> {
    if files == [] then []
    else
      var last := files[|files| - 1];
      Collected(parse, files[..|files| - 1])
      + match ScanModule(parse, last) case Some(v) => [(last.path, v)] case None => []
  }

  predicate DistinctPaths(files: seq<ModFile>) {
    forall i, j :: 0 <= i < j < |files| ==> files[i].path != files[j].path
  }

  // ---------------------------------------------------------------------
  // OrderBy(pair => pair.Key)

  predicate SortedByPath<V>(s: seq<(string, V)>) {
    forall i, j :: 0 <= i < j < |s| ==> LessEq(s[i].0, s[j].0)
  }

  function InsertByPath<V(==)>(x: (string, V), s: seq<(string, V)>): (r: seq<(string, V)>)
    requires SortedByPath(s)
    ensures SortedByPath(r)
    ensures multiset(r) == multiset(s) + multiset{x}
  {
    if s == [] then [x]
    else if LessEq(x.0, s[0].0) then
      forall j | 0 <= j < |s| ensures LessEq(x.0, s[j].0) {
        if j > 0 { LessEqTransitive(x.0, s[0].0, s[j].0); }
      }
      [x] + s
    else
      LessEqTotal(x.0, s[0].0);
      var tail := InsertByPath(x, s[1..]);
      assert s == [s[0]] + s[1..];
      forall y | y in tail ensures LessEq(s[0].0, y.0) {
        assert y in multiset(tail);
        if y != x { assert y in s[1..]; }
      }
      [s[0]] + tail
  }

  /** A stable sort of the entries by path. */
  function SortByPath<V(==)>(s: seq<(string, V)>): (r: seq<(string, V)>)
    ensures SortedByPath(r)
    ensures multiset(r) == multiset(s)
  {
    if s == [] then []
    else
      assert s == [s[0]] + s[1..];
      InsertByPath(s[0], SortByPath(s[1..]))
  }

  /**
   * Utils.GetFiles over the folder's listing: one entry per readable module
   * that has a Link getter with a body, ordered by path.
   */
  method GetFiles(parse: UriParser, dllFiles: seq<ModFile>) returns (urls: seq<UrlEntry>)
    ensures SortedByPath(urls)
    ensures multiset(urls) == multiset(Collected(parse, dllFiles))
    ensures urls == SortByPath(Collected(parse, dllFiles))
  {
    var urlDictionary: seq<UrlEntry> := [];
    for i := 0 to |dllFiles|
      invariant urlDictionary == Collected(parse, dllFiles[..i])
    {
      assert dllFiles[..i + 1][..i] == dllFiles[..i];
      var entry := ScanModule(parse, dllFiles[i]);
      if entry.Some? {
        urlDictionary := urlDictionary + [(dllFiles[i].path, entry.value)];
      }
    }
    assert dllFiles[..|dllFiles|] == dllFiles;
    urls := SortByPath(urlDictionary);
  }

  // ---------------------------------------------------------------------
  // Properties

  /** An entry of the dictionary comes from exactly the files that contribute one. */
  lemma CollectedMeans(parse: UriParser, files: seq<ModFile>, path: string, v: Option<string>)
    ensures (path, v) in Collected(parse, files) <==>
      exists k :: 0 <= k < |files| && files[k].path == path && ScanModule(parse, files[k]) == Some(v)
  {
    var scan := (f: ModFile) => ScanModule(parse, f);
    CollectedIsCollectedWith(parse, files);
    CollectedWithMeans(scan, files, path, v);
  }

  /** The foreach over files with any per-file scan. */
  ghost function CollectedWith(scan: ModFile -> Option<Option<string>>, files: seq<ModFile>): seq<UrlEntry> {
    if files == [] then []
    else
      var last := files[|files| - 1];
      CollectedWith(scan, files[..|files| - 1])
      + match scan(last) case Some(v) => [(last.path, v)] case None => []
  }

  lemma {:induction false} CollectedIsCollectedWith(parse: UriParser, files: seq<ModFile>)
    ensures Collected(parse, files) == CollectedWith((f: ModFile) => ScanModule(parse, f), files)
  {
    if files != [] {
      CollectedIsCollectedWith(parse, files[..|files| - 1]);
    }
  }

  lemma {:induction false} CollectedWithMeans(scan: ModFile -> Option<Option<string>>, files: seq<ModFile>, path: string, v: Option<string>)
    ensures (path, v) in CollectedWith(scan, files) <==>
      exists k :: 0 <= k < |files| && files[k].path == path && scan(files[k]) == Some(v)
  {
    if files != [] {
      var init := files[..|files| - 1];
      var last := files[|files| - 1];
      CollectedWithMeans(scan, init, path, v);
      var extra := match scan(last) case Some(w) => [(last.path, w)] case None => [];
      assert CollectedWith(scan, files) == CollectedWith(scan, init) + extra;
      if (path, v) in CollectedWith(scan, files) {
        if (path, v) in CollectedWith(scan, init) {
          var k :| 0 <= k < |init| && init[k].path == path && scan(init[k]) == Some(v);
          assert files[k] == init[k];
        } else {
          assert (path, v) in extra;
          assert files[|files| - 1].path == path && scan(files[|files| - 1]) == Some(v);
        }
      }
      if exists k :: 0 <= k < |files| && files[k].path == path && scan(files[k]) == Some(v) {
        var k :| 0 <= k < |files| && files[k].path == path && scan(files[k]) == Some(v);
        if k < |init| {
          assert init[k] == files[k];
        } else {
          assert extra == [(path, v)];
        }
      }
    }
  }

  /** With distinct paths, the sorted entries are strictly ordered: no path occurs twice. */
  lemma PathsDistinctAfterSort(parse: UriParser, files: seq<ModFile>, urls: seq<UrlEntry>)
    requires DistinctPaths(files)
    requires SortedByPath(urls) && multiset(urls) == multiset(Collected(parse, files))
    ensures forall i, j :: 0 <= i < j < |urls| ==> urls[i].0 != urls[j].0
  {
    CollectedPathsDistinct(parse, files);
    forall i, j | 0 <= i < j < |urls| ensures urls[i].0 != urls[j].0 {
      var c := Collected(parse, files);
      assert urls[i] in multiset(c) && urls[j] in multiset(c);
      var a :| 0 <= a < |c| && c[a] == urls[i];
      var b :| 0 <= b < |c| && c[b] == urls[j];
      if a == b {
        assert urls[i] == urls[j];
        MultisetOfDistinct(c, a);
        SortedNoRepeat(urls, i, j);
      }
    }
  }

  lemma CollectedPathsDistinct(parse: UriParser, files: seq<ModFile>)
    requires DistinctPaths(files)
    ensures var c := Collected(parse, files);
      forall a, b :: 0 <= a < b < |c| ==> c[a].0 != c[b].0
  {
    CollectedIsCollectedWith(parse, files);
    CollectedWithPathsDistinct((f: ModFile) => ScanModule(parse, f), files);
  }

  lemma {:induction false} CollectedWithPathsDistinct(scan: ModFile -> Option<Option<string>>, files: seq<ModFile>)
    requires DistinctPaths(files)
    ensures forall a, b :: 0 <= a < b < |CollectedWith(scan, files)| ==> CollectedWith(scan, files)[a].0 != CollectedWith(scan, files)[b].0
  {
    if files != [] {
      var init := files[..|files| - 1];
      var last := files[|files| - 1];
      assert DistinctPaths(init) by {
        forall i, j | 0 <= i < j < |init| ensures init[i].path != init[j].path {
          assert init[i] == files[i] && init[j] == files[j];
        }
      }
      CollectedWithPathsDistinct(scan, init);
      var c0 := CollectedWith(scan, init);
      var extra := match scan(last) case Some(w) => [(last.path, w)] case None => [];
      var c := CollectedWith(scan, files);
      assert c == c0 + extra;
      forall a, b | 0 <= a < b < |c| ensures c[a].0 != c[b].0 {
        if b >= |c0| {
          assert c[b] == extra[0] && c[b].0 == last.path;
          assert c[a] == c0[a] && c0[a] in c0;
          CollectedWithMeans(scan, init, c0[a].0, c0[a].1);
          var k :| 0 <= k < |init| && init[k].path == c0[a].0 && scan(init[k]) == Some(c0[a].1);
          assert init[k] == files[k];
          assert files[k].path != files[|files| - 1].path;
        } else {
          assert c[a] == c0[a] && c[b] == c0[b];
          assert c0[a].0 != c0[b].0;
        }
      }
    }
  }

  /** An element listed once occurs once in the multiset. */
  lemma MultisetOfDistinct(c: seq<UrlEntry>, a: nat)
    requires a < |c|
    requires forall x, y :: 0 <= x < y < |c| ==> c[x].0 != c[y].0
    ensures multiset(c)[c[a]] == 1
  {
    var before, after := c[..a], c[a + 1..];
    assert c == before + [c[a]] + after;
    forall x | 0 <= x < |before| ensures before[x] != c[a] {
      assert before[x] == c[x];
    }
    forall y | 0 <= y < |after| ensures after[y] != c[a] {
      assert after[y] == c[a + 1 + y];
    }
    assert c[a] !in before && c[a] !in after;
  }

  lemma SortedNoRepeat(urls: seq<UrlEntry>, i: nat, j: nat)
    requires i < j < |urls| && urls[i] == urls[j]
    ensures multiset(urls)[urls[i]] >= 2
  {
    var x := urls[i];
    assert urls == urls[..i] + [x] + urls[i + 1..j] + [x] + urls[j + 1..];
  }

  /** A file whose name starts with the marker is recorded as "_" whatever its Link says. */
  lemma IgnoreMarkerWins(parse: UriParser, file: ModFile)
    requires StartsWith(FileName(file.path), IgnoreMarker)
    ensures ScanModule(parse, file).Some? ==> ScanModule(parse, file) == Some(Some(IgnoreMarker))
  {
  }

  /** A file that cannot be read contributes no entry. */
  lemma UnreadableDropped(parse: UriParser, file: ModFile)
    requires file.assembly.None?
    ensures ScanModule(parse, file).None?
  {
  }

  /**
   * A file contributes an entry exactly when it is readable and the first
   * Link property of its mod types has a getter with a body
   * (RecordedLinkIsFirstAcceptedLdstr says which value it records).
   */
  lemma EntryExactlyWithLinkGetter(parse: UriParser, file: ModFile)
    ensures ScanModule(parse, file).Some? <==>
      && file.assembly.Some?
      && var p := FindProperty(ModProperties(file.assembly.value.types), LinkPropertyName);
      && p.Some? && p.value.getMethod.Some? && p.value.getMethod.value.hasBody
  {
  }

  /** The k-th instruction is the first ldstr whose operand passes the link filter. */
  predicate FirstAcceptedLdstrAt(parse: UriParser, instructions: seq<Instruction>, k: int) {
    && 0 <= k < |instructions| && instructions[k].Ldstr? && IsAcceptedLink(parse, instructions[k].operand)
    && forall j :: 0 <= j < k && instructions[j].Ldstr? ==> !IsAcceptedLink(parse, instructions[j].operand)
  }

  /**
   * FirstOrDefault over the getter's ldstr operands, in terms of the
   * instructions: null exactly when no ldstr operand passes the filter,
   * otherwise the operand of the first ldstr, in instruction order, that does.
   */
  lemma FirstAcceptedInInstructionOrder(parse: UriParser, instructions: seq<Instruction>)
    ensures FirstAccepted(parse, StringOperands(instructions)).None? <==>
      forall k :: 0 <= k < |instructions| && instructions[k].Ldstr? ==> !IsAcceptedLink(parse, instructions[k].operand)
    ensures FirstAccepted(parse, StringOperands(instructions)).Some? ==>
      exists k :: FirstAcceptedLdstrAt(parse, instructions, k) && instructions[k].operand == FirstAccepted(parse, StringOperands(instructions)).value
  {
    var ops := StringOperands(instructions);
    if FirstAccepted(parse, ops).None? {
      forall k | 0 <= k < |instructions| && instructions[k].Ldstr?
        ensures !IsAcceptedLink(parse, instructions[k].operand)
      {
        var u := instructions[k].operand;
        assert u in ops;
        var i :| 0 <= i < |ops| && ops[i] == u;
      }
    } else {
      FirstAcceptedSomeInOrder(parse, instructions);
    }
  }

  lemma {:induction false} FirstAcceptedSomeInOrder(parse: UriParser, instructions: seq<Instruction>)
    requires FirstAccepted(parse, StringOperands(instructions)).Some?
    ensures exists k :: FirstAcceptedLdstrAt(parse, instructions, k) && instructions[k].operand == FirstAccepted(parse, StringOperands(instructions)).value
  {
    var head := instructions[0];
    var tail := instructions[1..];
    var rest := StringOperands(tail);
    var u := FirstAccepted(parse, StringOperands(instructions)).value;
    if head.Ldstr? && IsAcceptedLink(parse, head.operand) {
      assert StringOperands(instructions) == [head.operand] + rest;
      assert FirstAcceptedLdstrAt(parse, instructions, 0);
    } else {
      if head.Ldstr? {
        var ops := [head.operand] + rest;
        assert StringOperands(instructions) == ops;
        assert ops[1..] == rest;
      } else {
        assert StringOperands(instructions) == rest;
      }
      assert FirstAccepted(parse, rest) == Some(u);
      FirstAcceptedSomeInOrder(parse, tail);
      var k :| FirstAcceptedLdstrAt(parse, tail, k) && tail[k].operand == u;
      ShiftFirstAccepted(parse, instructions, k);
    }
  }

  /** A first accepted ldstr in the later instructions stays first when the first instruction is not an accepted ldstr. */
  lemma ShiftFirstAccepted(parse: UriParser, instructions: seq<Instruction>, k: int)
    requires instructions != [] && FirstAcceptedLdstrAt(parse, instructions[1..], k)
    requires instructions[0].Ldstr? ==> !IsAcceptedLink(parse, instructions[0].operand)
    ensures FirstAcceptedLdstrAt(parse, instructions, k + 1) && instructions[k + 1] == instructions[1..][k]
  {
    var tail := instructions[1..];
    assert instructions[k + 1] == tail[k];
    forall j | 0 <= j < k + 1 && instructions[j].Ldstr?
      ensures !IsAcceptedLink(parse, instructions[j].operand)
    {
      if j > 0 {
        assert instructions[j] == tail[j - 1];
      }
    }
  }

  /** FirstOrDefault by name over a concatenation looks in the second part only when the first has no match. */
  lemma {:induction false} FindPropertyAppend(a: seq<PropertyDefinition>, b: seq<PropertyDefinition>, name: string)
    ensures FindProperty(a + b, name) == if FindProperty(a, name).Some? then FindProperty(a, name) else FindProperty(b, name)
  {
    if a != [] {
      assert (a + b)[1..] == a[1..] + b;
      FindPropertyAppend(a[1..], b, name);
    } else {
      assert a + b == b;
    }
  }

  /**
   * Property k of type t is the first property with the name in
   * type-then-property order among the types deriving from ResoniteMod.
   */
  predicate FirstNamedAt(types: seq<TypeDefinition>, name: string, t: int, k: int) {
    && 0 <= t < |types| && types[t].baseTypeName == Some(ModBaseType)
    && 0 <= k < |types[t].properties| && types[t].properties[k].name == name
    && (forall t', k' :: 0 <= t' < t && types[t'].baseTypeName == Some(ModBaseType) && 0 <= k' < |types[t'].properties| ==>
          types[t'].properties[k'].name != name)
    && forall k' :: 0 <= k' < k ==> types[t].properties[k'].name != name
  }

  /**
   * The Link property GetFiles reads, in terms of the types: null exactly
   * when no property of a ResoniteMod type has the name, otherwise the first
   * one, in type order and then property order.
   */
  lemma FirstModPropertyInOrder(types: seq<TypeDefinition>, name: string)
    ensures FindProperty(ModProperties(types), name).None? <==>
      forall t, k :: 0 <= t < |types| && types[t].baseTypeName == Some(ModBaseType) && 0 <= k < |types[t].properties| ==>
        types[t].properties[k].name != name
    ensures FindProperty(ModProperties(types), name).Some? ==>
      exists t, k :: FirstNamedAt(types, name, t, k) && types[t].properties[k] == FindProperty(ModProperties(types), name).value
  {
    var props := ModProperties(types);
    if FindProperty(props, name).None? {
      forall t, k | 0 <= t < |types| && types[t].baseTypeName == Some(ModBaseType) && 0 <= k < |types[t].properties|
        ensures types[t].properties[k].name != name
      {
        var p := types[t].properties[k];
        assert types[t] in types && p in types[t].properties;
        assert p in props;
        var i :| 0 <= i < |props| && props[i] == p;
      }
    } else {
      FirstModPropertySomeInOrder(types, name);
    }
  }

  lemma {:induction false} FirstModPropertySomeInOrder(types: seq<TypeDefinition>, name: string)
    requires FindProperty(ModProperties(types), name).Some?
    ensures exists t, k :: FirstNamedAt(types, name, t, k) && types[t].properties[k] == FindProperty(ModProperties(types), name).value
  {
    var tail := types[1..];
    var rest := ModProperties(tail);
    var head := if types[0].baseTypeName == Some(ModBaseType) then types[0].properties else [];
    assert ModProperties(types) == head + rest;
    FindPropertyAppend(head, rest, name);
    if FindProperty(head, name).Some? {
      var k :| 0 <= k < |head| && head[k] == FindProperty(head, name).value && head[k].name == name
        && forall j :: 0 <= j < k ==> head[j].name != name;
      assert FirstNamedAt(types, name, 0, k);
    } else {
      FirstModPropertySomeInOrder(tail, name);
      var t, k :| FirstNamedAt(tail, name, t, k) && tail[t].properties[k] == FindProperty(rest, name).value;
      ShiftFirstNamed(types, name, t, k);
    }
  }

  /** A first match in the later types stays first when the first type has no property of that name. */
  lemma ShiftFirstNamed(types: seq<TypeDefinition>, name: string, t: int, k: int)
    requires types != [] && FirstNamedAt(types[1..], name, t, k)
    requires types[0].baseTypeName == Some(ModBaseType) ==>
      forall j :: 0 <= j < |types[0].properties| ==> types[0].properties[j].name != name
    ensures FirstNamedAt(types, name, t + 1, k) && types[t + 1] == types[1..][t]
  {
    var tail := types[1..];
    assert types[t + 1] == tail[t];
    forall t', k' | 0 <= t' < t + 1 && types[t'].baseTypeName == Some(ModBaseType) && 0 <= k' < |types[t'].properties|
      ensures types[t'].properties[k'].name != name
    {
      if t' > 0 {
        assert types[t'] == tail[t' - 1];
      }
    }
  }

  /**
   * The getter exists and has a body, and the value is null exactly when no
   * ldstr operand of it passes the filter, otherwise the operand of its
   * first ldstr that does.
   */
  predicate RecordsFirstAcceptedLdstr(parse: UriParser, getter: Option<MethodDefinition>, value: Option<string>) {
    && getter.Some? && getter.value.hasBody
    && (value.None? <==>
          forall i :: 0 <= i < |getter.value.instructions| && getter.value.instructions[i].Ldstr? ==>
            !IsAcceptedLink(parse, getter.value.instructions[i].operand))
    && (value.Some? ==>
          exists i :: 0 <= i < |getter.value.instructions| && FirstAcceptedLdstrAt(parse, getter.value.instructions, i)
            && getter.value.instructions[i].operand == value.value)
  }

  /**
   * Without the ignore marker, the recorded link comes from the getter of the
   * first Link property (type-then-property order) and is the operand of its
   * first accepted ldstr in instruction order, or null when none is accepted.
   */
  lemma RecordedLinkIsFirstAcceptedLdstr(parse: UriParser, file: ModFile)
    requires ScanModule(parse, file).Some? && !StartsWith(FileName(file.path), IgnoreMarker)
    ensures exists t, k ::
      && FirstNamedAt(file.assembly.value.types, LinkPropertyName, t, k)
      && RecordsFirstAcceptedLdstr(parse, file.assembly.value.types[t].properties[k].getMethod, ScanModule(parse, file).value)
  {
    var types := file.assembly.value.types;
    var found := FindProperty(ModProperties(types), LinkPropertyName);
    assert found.Some? && found.value.getMethod.Some? && found.value.getMethod.value.hasBody;
    var getter := found.value.getMethod.value;
    var value := ScanModule(parse, file).value;
    assert value == FirstAccepted(parse, StringOperands(getter.instructions));
    FirstAcceptedInInstructionOrder(parse, getter.instructions);
    assert RecordsFirstAcceptedLdstr(parse, found.value.getMethod, value);
    FirstModPropertyInOrder(types, LinkPropertyName);
    var t, k :| FirstNamedAt(types, LinkPropertyName, t, k) && types[t].properties[k] == found.value;
    assert RecordsFirstAcceptedLdstr(parse, types[t].properties[k].getMethod, value);
  }

  /**
   * When the parser gives back the string itself as the URI's text, an
   * accepted link has the owner and repository pieces (indices 3 and 4) in
   * its raw Split('/'), which is what Download and DownloadFromRSS index.
   */
  lemma AcceptedLinkHasOwnerAndRepo(parse: UriParser, u: string)
    requires IsAcceptedLink(parse, u)
    requires parse(u).value.text == u
    ensures |Split(u, '/')| > 4
  {
    TrimEndKeepsFewerPieces(u, '/');
  }
}
