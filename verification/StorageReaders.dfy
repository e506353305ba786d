/** The getters over harness-owned structs: a capped depth-first walk over member trees. */
module StorageReaders {
  import opened Options
  import opened Text
  import opened HarnessModel
  import opened HarnessNames

  datatype Kind = ValueKind | StructKind | MappingKind | ArrayKind | OtherKind

  datatype MemberNode = MemberNode(
    name: string,
    solidityType: string,
    kind: Kind,
    keyType: string,
    value: Option<MemberNode>,
    members: seq<MemberNode>)

  datatype OwnedVar = OwnedVar(varName: string, solidityType: string)

  datatype StorageReader = StorageReader(
    name: string,
    solidityType: string,
    accessExpression: string,
    params: seq<LibParam>,
    location: string)

  const MAX_READER_DEPTH: nat := 4
  const MAX_READERS: nat := 24

  function TypeLocation(solidityType: string): string {
    if solidityType == "bytes" || solidityType == "string"
       || (solidityType != "" && solidityType[|solidityType| - 1] == ']') then "memory" else ""
  }

  function NonEmptySanitized(parts: seq<string>): seq<string> {
    if parts == [] then []
    else (if parts[0] == "" then [] else [SanitizeIdentifier(parts[0])]) + NonEmptySanitized(parts[1..])
  }

  /** Where a walk stands: the access expression so far, the name parts and the lookup keys. */
  datatype Cursor = Cursor(access: string, nameParts: seq<string>, params: seq<LibParam>)

  datatype Step = Field(name: string) | Lookup(keyType: string)

  function KeyName(n: nat): string {
    "key" + Decimal(n)
  }

  function KeyParam(n: nat, keyType: string): LibParam {
    LibParam(KeyName(n), keyType, TypeLocation(keyType))
  }

  function FieldText(name: string): string {
    "." + name
  }

  function KeyText(n: nat): string {
    "[" + KeyName(n) + "]"
  }

  function Advance(c: Cursor, step: Step): Cursor {
    match step
    case Field(name) => Cursor(c.access + FieldText(name), c.nameParts + [name], c.params)
    case Lookup(keyType) =>
      Cursor(c.access + KeyText(|c.params|), c.nameParts, c.params + [KeyParam(|c.params|, keyType)])
  }

  function ReaderAt(c: Cursor, leaf: MemberNode): StorageReader {
    StorageReader(Join("_", NonEmptySanitized(c.nameParts)), leaf.solidityType, c.access, c.params,
                  TypeLocation(leaf.solidityType))
  }

  /** The key type under which a mapping or array is indexed. */
  function KeyType(node: MemberNode): string {
    if node.kind == MappingKind then node.keyType else "uint256"
  }

  predicate Indexable(node: MemberNode) {
    (node.kind == MappingKind || node.kind == ArrayKind) && node.value.Some?
  }

  /** Every value leaf within the depth bound, in depth-first order, without any cap on their number. */
  function Leaves(node: MemberNode, c: Cursor, depth: nat): seq<StorageReader>
    decreases node, |node.members| + 1
  {
    if depth > MAX_READER_DEPTH then []
    else if node.kind == StructKind then LeavesOf(node, node.members, c, depth)
    else if Indexable(node) then Leaves(node.value.value, Advance(c, Lookup(KeyType(node))), depth + 1)
    else if node.kind == ValueKind then [ReaderAt(c, node)]
    else []
  }

  function LeavesOf(parent: MemberNode, members: seq<MemberNode>, c: Cursor, depth: nat): seq<StorageReader>
    requires members <= parent.members
    decreases parent, |members|
  {
    if members == [] then []
    else
      assert parent.members[|members| - 1] == members[|members| - 1];
      LeavesOf(parent, members[..|members| - 1], c, depth) +
      Leaves(members[|members| - 1], Advance(c, Field(members[|members| - 1].name)), depth + 1)
  }

  function Capped(rs: seq<StorageReader>): seq<StorageReader> {
    if |rs| <= MAX_READERS then rs else rs[..MAX_READERS]
  }

  lemma CappedAppend(a: seq<StorageReader>, b: seq<StorageReader>)
    ensures Capped(Capped(a) + b) == Capped(a + b)
  {
  }

  lemma MemberStep(base: seq<StorageReader>, node: MemberNode, i: nat, c: Cursor, depth: nat)
    requires i < |node.members|
    ensures var child := node.members[i];
      Capped(Capped(base + LeavesOf(node, node.members[..i], c, depth)) + Leaves(child, Advance(c, Field(child.name)), depth + 1))
      == Capped(base + LeavesOf(node, node.members[..i + 1], c, depth))
  {
    var child := node.members[i];
    var soFar, more := LeavesOf(node, node.members[..i], c, depth), Leaves(child, Advance(c, Field(child.name)), depth + 1);
    CappedAppend(base + soFar, more);
    assert node.members[..i + 1][..i] == node.members[..i];
    assert base + (soFar + more) == base + soFar + more;
  }

  lemma FullStays(full: seq<StorageReader>, more: seq<StorageReader>)
    requires |full| == MAX_READERS || (|full| <= MAX_READERS && more == [])
    ensures Capped(full + more) == full
  {
  }

  /** The shared list that the walk appends to. */
  class ReaderWalk {
    var readers: seq<StorageReader>

    constructor ()
      ensures readers == []
    {
      readers := [];
    }

    method WalkMember(node: MemberNode, access: string, nameParts: seq<string>, params: seq<LibParam>, depth: nat)
      requires |readers| <= MAX_READERS
      modifies this
      ensures readers == Capped(old(readers) + Leaves(node, Cursor(access, nameParts, params), depth))
      decreases node, 1
    {
      if depth > MAX_READER_DEPTH || |readers| >= MAX_READERS {
        FullStays(readers, Leaves(node, Cursor(access, nameParts, params), depth));
        return;
      }
      var c := Cursor(access, nameParts, params);
      if node.kind == StructKind {
        WalkChildren(node, access, nameParts, params, depth);
        return;
      }
      if Indexable(node) {
        var keyType := KeyType(node);
        WalkMember(node.value.value, access + KeyText(|params|), nameParts,
                   params + [KeyParam(|params|, keyType)], depth + 1);
        return;
      }
      if node.kind != ValueKind {
        return;
      }
      readers := readers + [ReaderAt(c, node)];
    }

    method WalkChildren(node: MemberNode, access: string, nameParts: seq<string>, params: seq<LibParam>, depth: nat)
      requires |readers| <= MAX_READERS
      modifies this
      ensures readers == Capped(old(readers) + LeavesOf(node, node.members, Cursor(access, nameParts, params), depth))
      decreases node, 0
    {
      ghost var c := Cursor(access, nameParts, params);
      for i := 0 to |node.members|
        invariant readers == Capped(old(readers) + LeavesOf(node, node.members[..i], c, depth))
      {
        var child := node.members[i];
        WalkMember(child, access + FieldText(child.name), nameParts + [child.name], params, depth + 1);
        MemberStep(old(readers), node, i, c, depth);
      }
      assert node.members[..|node.members|] == node.members;
    }
  }

  function Members(structMembers: map<string, seq<MemberNode>>, solidityType: string): seq<MemberNode> {
    if solidityType in structMembers then structMembers[solidityType] else []
  }

  function MemberCursor(v: OwnedVar, libraryName: string, member: MemberNode): Cursor {
    Cursor(v.varName + FieldText(member.name), [ShortTypeName(v.solidityType, libraryName), member.name], [])
  }

  function LeavesOfVar(v: OwnedVar, members: seq<MemberNode>, libraryName: string): seq<StorageReader> {
    if members == [] then []
    else
      LeavesOfVar(v, members[..|members| - 1], libraryName) +
      Leaves(members[|members| - 1], MemberCursor(v, libraryName, members[|members| - 1]), 0)
  }

  function LeavesOfAll(owned: seq<OwnedVar>, structMembers: map<string, seq<MemberNode>>, libraryName: string): seq<StorageReader> {
    if owned == [] then []
    else
      LeavesOfAll(owned[..|owned| - 1], structMembers, libraryName) +
      LeavesOfVar(owned[|owned| - 1], Members(structMembers, owned[|owned| - 1].solidityType), libraryName)
  }

  lemma OneMoreMember(v: OwnedVar, members: seq<MemberNode>, j: nat, libraryName: string)
    requires j < |members|
    ensures LeavesOfVar(v, members[..j + 1], libraryName)
         == LeavesOfVar(v, members[..j], libraryName) + Leaves(members[j], MemberCursor(v, libraryName, members[j]), 0)
  {
    assert members[..j + 1][..j] == members[..j] && members[..j + 1][j] == members[j];
  }

  lemma CappedSum(base: seq<StorageReader>, soFar: seq<StorageReader>, more: seq<StorageReader>)
    ensures Capped(Capped(base + soFar) + more) == Capped(base + (soFar + more))
  {
    CappedAppend(base + soFar, more);
    Associative(base, soFar, more);
  }

  lemma VarStep(base: seq<StorageReader>, v: OwnedVar, members: seq<MemberNode>, j: nat, libraryName: string)
    requires j < |members|
    ensures Capped(Capped(base + LeavesOfVar(v, members[..j], libraryName)) + Leaves(members[j], MemberCursor(v, libraryName, members[j]), 0))
         == Capped(base + LeavesOfVar(v, members[..j + 1], libraryName))
  {
    OneMoreMember(v, members, j, libraryName);
    CappedSum(base, LeavesOfVar(v, members[..j], libraryName), Leaves(members[j], MemberCursor(v, libraryName, members[j]), 0));
  }

  method DeriveReadersOf(walk: ReaderWalk, v: OwnedVar, members: seq<MemberNode>, libraryName: string)
    requires |walk.readers| <= MAX_READERS
    modifies walk
    ensures walk.readers == Capped(old(walk.readers) + LeavesOfVar(v, members, libraryName))
  {
    var root := ShortTypeName(v.solidityType, libraryName);
    for j := 0 to |members|
      invariant walk.readers == Capped(old(walk.readers) + LeavesOfVar(v, members[..j], libraryName))
    {
      var member := members[j];
      walk.WalkMember(member, v.varName + FieldText(member.name), [root, member.name], [], 0);
      VarStep(old(walk.readers), v, members, j, libraryName);
    }
    assert members[..|members|] == members;
  }

  /** The readers of a harness are the first 24 of the plain enumeration over all owned variables. */
  method DeriveReaders(owned: seq<OwnedVar>, structMembers: map<string, seq<MemberNode>>, libraryName: string)
    returns (readers: seq<StorageReader>)
    ensures var all := LeavesOfAll(owned, structMembers, libraryName);
      readers == if |all| <= 24 then all else all[..24]
  {
    var walk := new ReaderWalk();
    for i := 0 to |owned|
      invariant fresh(walk)
      invariant walk.readers == Capped(LeavesOfAll(owned[..i], structMembers, libraryName))
    {
      var members := Members(structMembers, owned[i].solidityType);
      DeriveReadersOf(walk, owned[i], members, libraryName);
      CappedAppend(LeavesOfAll(owned[..i], structMembers, libraryName), LeavesOfVar(owned[i], members, libraryName));
      assert owned[..i + 1][..i] == owned[..i];
    }
    assert owned[..|owned|] == owned;
    readers := walk.readers;
  }

  // ----- The enumeration is exactly the typed value paths -----

  /** Following `path` from a member of type tree `node` is well typed and ends in `leaf`. */
  ghost predicate Typed(node: MemberNode, path: seq<Step>, leaf: MemberNode)
    decreases |path|
  {
    if path == [] then leaf == node
    else match path[0]
      case Field(name) =>
        node.kind == StructKind
        && exists i :: 0 <= i < |node.members| && node.members[i].name == name && Typed(node.members[i], path[1..], leaf)
      case Lookup(keyType) =>
        && node.value.Some? && Typed(node.value.value, path[1..], leaf)
        && ((node.kind == MappingKind && keyType == node.keyType) || (node.kind == ArrayKind && keyType == "uint256"))
  }

  function AdvanceAll(c: Cursor, path: seq<Step>): Cursor
    decreases |path|
  {
    if path == [] then c else AdvanceAll(Advance(c, path[0]), path[1..])
  }

  ghost predicate ReadsLeaf(node: MemberNode, c: Cursor, depth: nat, path: seq<Step>, leaf: MemberNode, r: StorageReader) {
    && depth + |path| <= 4
    && Typed(node, path, leaf)
    && leaf.kind == ValueKind
    && r == ReaderAt(AdvanceAll(c, path), leaf)
  }

  /** Every reader returns one value leaf, reached by a well-typed access path of at most the depth bound. */
  lemma {:induction false} ReadersAreTyped(node: MemberNode, c: Cursor, depth: nat, r: StorageReader)
    returns (path: seq<Step>, leaf: MemberNode)
    requires r in Leaves(node, c, depth)
    ensures ReadsLeaf(node, c, depth, path, leaf, r)
    decreases node, |node.members| + 1
  {
    if node.kind == StructKind {
      path, leaf := ReadersOfMembersAreTyped(node, node.members, c, depth, r);
    } else if Indexable(node) {
      var step := Lookup(KeyType(node));
      var rest, end := ReadersAreTyped(node.value.value, Advance(c, step), depth + 1, r);
      path, leaf := [step] + rest, end;
      assert path[1..] == rest;
    } else {
      path, leaf := [], node;
    }
  }

  lemma {:induction false} ReadersOfMembersAreTyped(parent: MemberNode, members: seq<MemberNode>, c: Cursor, depth: nat, r: StorageReader)
    returns (path: seq<Step>, leaf: MemberNode)
    requires parent.kind == StructKind && members <= parent.members
    requires r in LeavesOf(parent, members, c, depth)
    ensures ReadsLeaf(parent, c, depth, path, leaf, r)
    decreases parent, |members|
  {
    var last := |members| - 1;
    var child := parent.members[last];
    if r in Leaves(child, Advance(c, Field(child.name)), depth + 1) {
      var rest, end := ReadersAreTyped(child, Advance(c, Field(child.name)), depth + 1, r);
      path, leaf := [Field(child.name)] + rest, end;
      assert path[1..] == rest;
      assert parent.members[last] == child;
    } else {
      path, leaf := ReadersOfMembersAreTyped(parent, members[..last], c, depth, r);
    }
  }

  /** And every value leaf within the depth bound has its reader in the enumeration. */
  lemma FieldLeaves(node: MemberNode, i: nat, c: Cursor, depth: nat, r: StorageReader)
    requires node.kind == StructKind && depth <= MAX_READER_DEPTH && i < |node.members|
    requires r in Leaves(node.members[i], Advance(c, Field(node.members[i].name)), depth + 1)
    ensures r in Leaves(node, c, depth)
  {
    MemberLeavesIncluded(node, node.members, i, c, depth, r);
  }

  lemma LookupLeaves(node: MemberNode, c: Cursor, depth: nat)
    requires Indexable(node) && depth <= MAX_READER_DEPTH
    ensures Leaves(node, c, depth) == Leaves(node.value.value, Advance(c, Lookup(KeyType(node))), depth + 1)
  {
  }

  lemma AdvanceFirst(c: Cursor, path: seq<Step>)
    requires path != []
    ensures AdvanceAll(c, path) == AdvanceAll(Advance(c, path[0]), path[1..])
  {
  }

  lemma {:induction false} TypedPathsAreRead(node: MemberNode, c: Cursor, depth: nat, path: seq<Step>, leaf: MemberNode)
    requires depth + |path| <= MAX_READER_DEPTH && Typed(node, path, leaf) && leaf.kind == ValueKind
    ensures ReaderAt(AdvanceAll(c, path), leaf) in Leaves(node, c, depth)
    decreases |path|
  {
    if path != [] {
      AdvanceFirst(c, path);
      match path[0]
      case Field(name) =>
        var i :| 0 <= i < |node.members| && node.members[i].name == name && Typed(node.members[i], path[1..], leaf);
        TypedPathsAreRead(node.members[i], Advance(c, path[0]), depth + 1, path[1..], leaf);
        FieldLeaves(node, i, c, depth, ReaderAt(AdvanceAll(c, path), leaf));
      case Lookup(keyType) =>
        TypedPathsAreRead(node.value.value, Advance(c, path[0]), depth + 1, path[1..], leaf);
        LookupLeaves(node, c, depth);
    }
  }

  lemma {:induction false} MemberLeavesIncluded(parent: MemberNode, members: seq<MemberNode>, i: nat, c: Cursor, depth: nat, r: StorageReader)
    requires members <= parent.members && i < |members|
    requires r in Leaves(members[i], Advance(c, Field(members[i].name)), depth + 1)
    ensures r in LeavesOf(parent, members, c, depth)
    decreases |members|
  {
    if i < |members| - 1 {
      MemberLeavesIncluded(parent, members[..|members| - 1], i, c, depth, r);
    }
  }

  lemma LeavesAreExactlyTypedPaths(node: MemberNode, c: Cursor, depth: nat, r: StorageReader)
    ensures r in Leaves(node, c, depth) <==> exists path, leaf :: ReadsLeaf(node, c, depth, path, leaf, r)
  {
    if r in Leaves(node, c, depth) {
      var path, leaf := ReadersAreTyped(node, c, depth, r);
    }
    if path, leaf :| ReadsLeaf(node, c, depth, path, leaf, r) {
      TypedPathsAreRead(node, c, depth, path, leaf);
    }
  }

  // ----- Keys -----

  /** The source text of a path whose first lookup uses key number `n`. */
  function PathText(path: seq<Step>, n: nat): string {
    if path == [] then ""
    else match path[0]
      case Field(name) => FieldText(name) + PathText(path[1..], n)
      case Lookup(_) => KeyText(n) + PathText(path[1..], n + 1)
  }

  function LookupTypes(path: seq<Step>): seq<string> {
    if path == [] then []
    else (if path[0].Lookup? then [path[0].keyType] else []) + LookupTypes(path[1..])
  }

  function KeyParams(keyTypes: seq<string>, n: nat): seq<LibParam> {
    if keyTypes == [] then [] else [KeyParam(n, keyTypes[0])] + KeyParams(keyTypes[1..], n + 1)
  }

  /**
   * The reader for a path declares one key per lookup, in order, with the type that the lookup
   * demands, and its access expression uses exactly those keys in that order.
   */
  lemma {:induction false} KeysFollowLookups(c: Cursor, path: seq<Step>)
    ensures AdvanceAll(c, path).access == c.access + PathText(path, |c.params|)
    ensures AdvanceAll(c, path).params == c.params + KeyParams(LookupTypes(path), |c.params|)
    decreases |path|
  {
    if path != [] {
      var c' := Advance(c, path[0]);
      KeysFollowLookups(c', path[1..]);
      var rest, text := LookupTypes(path[1..]), PathText(path[1..], |c'.params|);
      match path[0]
      case Field(name) =>
        Associative(c.access, FieldText(name), text);
        assert LookupTypes(path) == [] + rest == rest;
      case Lookup(keyType) =>
        Associative(c.access, KeyText(|c.params|), text);
        assert LookupTypes(path)[1..] == rest;
        Associative(c.params, [KeyParam(|c.params|, keyType)], KeyParams(rest, |c.params| + 1));
    }
  }

  lemma KeyNamesDistinct(m: nat, n: nat)
    requires KeyName(m) == KeyName(n)
    ensures m == n
  {
    assert KeyName(m)[3..] == Decimal(m) && KeyName(n)[3..] == Decimal(n);
    DecimalInjective(m, n);
  }

  // ----- What a getter looks like -----

  /** A type that is passed in memory. */
  predicate IsDynamic(solidityType: string) {
    || solidityType == "bytes" || solidityType == "string"
    || (solidityType != "" && solidityType[|solidityType| - 1] == ']')
  }

  /** A member's name is a word, possibly behind underscores. */
  predicate IsNamed(name: string, word: string) {
    exists n :: 0 <= n <= |name| && name[n..] == word && Alphanumeric(word) && NoLetterOrDigit(name[..n])
  }

  /** The fields of the path are named by the words, in order. */
  predicate FieldsNamed(path: seq<Step>, words: seq<string>) {
    if path == [] then words == []
    else if path[0].Lookup? then FieldsNamed(path[1..], words)
    else words != [] && IsNamed(path[0].name, words[0]) && FieldsNamed(path[1..], words[1..])
  }

  function FieldNames(path: seq<Step>): seq<string> {
    if path == [] then []
    else (if path[0].Field? then [path[0].name] else []) + FieldNames(path[1..])
  }

  function Underscored(words: seq<string>): string {
    if words == [] then "" else "_" + words[0] + Underscored(words[1..])
  }

  lemma NamedIsSanitized(name: string, word: string)
    requires IsNamed(name, word)
    ensures SanitizeIdentifier(name) == word && name != ""
  {
    var n: nat :| n <= |name| && name[n..] == word && Alphanumeric(word) && NoLetterOrDigit(name[..n]);
    SanitizedIsJoined([word], [name[..n], ""]);
    assert [word][1..] == [] && [name[..n], ""][1..] == [""];
    assert name == name[..n] + (word + "");
  }

  lemma {:induction false} PartsOfPath(c: Cursor, path: seq<Step>)
    ensures AdvanceAll(c, path).nameParts == c.nameParts + FieldNames(path)
    decreases |path|
  {
    if path != [] {
      var c' := Advance(c, path[0]);
      PartsOfPath(c', path[1..]);
      match path[0]
      case Field(name) => Associative(c.nameParts, [name], FieldNames(path[1..]));
      case Lookup(_) => assert FieldNames(path) == [] + FieldNames(path[1..]) == FieldNames(path[1..]);
    }
  }

  lemma {:induction false} FieldsSanitized(path: seq<Step>, words: seq<string>)
    requires FieldsNamed(path, words)
    ensures NonEmptySanitized(FieldNames(path)) == words
  {
    if path != [] {
      if path[0].Lookup? {
        FieldsSanitized(path[1..], words);
        assert FieldNames(path) == [] + FieldNames(path[1..]) == FieldNames(path[1..]);
      } else {
        FieldsSanitized(path[1..], words[1..]);
        NamedIsSanitized(path[0].name, words[0]);
        assert FieldNames(path)[1..] == FieldNames(path[1..]);
      }
    }
  }

  lemma JoinNext(sep: string, first: string, words: seq<string>)
    ensures Join(sep, [first] + words) == if words == [] then first else first + sep + Join(sep, words)
  {
    assert ([first] + words)[1..] == words;
  }

  lemma {:induction false} JoinedWords(first: string, words: seq<string>)
    ensures Join("_", [first] + words) == first + Underscored(words)
    decreases |words|
  {
    JoinNext("_", first, words);
    if words != [] {
      JoinedWords(words[0], words[1..]);
      assert [words[0]] + words[1..] == words;
      Associative(first, "_", words[0] + Underscored(words[1..]));
      Associative("_", words[0], Underscored(words[1..]));
    } else {
      assert first + "" == first;
    }
  }

  /** The text behind the variable: `.name` for a field, `[keyN]` for the N-th lookup. */
  function AccessText(path: seq<Step>, n: nat): string {
    if path == [] then ""
    else match path[0]
      case Field(name) => ("." + name) + AccessText(path[1..], n)
      case Lookup(_) => ("[" + ("key" + Decimal(n)) + "]") + AccessText(path[1..], n + 1)
  }

  lemma {:induction false} PathIsAccess(path: seq<Step>, n: nat)
    ensures PathText(path, n) == AccessText(path, n)
  {
    if path != [] {
      PathIsAccess(path[1..], if path[0].Field? then n else n + 1);
    }
  }

  lemma {:induction false} KeyParamAt(keyTypes: seq<string>, n: nat, k: nat)
    requires k < |keyTypes|
    ensures |KeyParams(keyTypes, n)| == |keyTypes|
    ensures KeyParams(keyTypes, n)[k] == LibParam("key" + Decimal(n + k), keyTypes[k], if IsDynamic(keyTypes[k]) then "memory" else "")
  {
    if |keyTypes| > 1 {
      KeyParamAt(keyTypes[1..], n + 1, if k > 0 then k - 1 else 0);
    }
  }

  lemma {:induction false} KeyParamsCount(keyTypes: seq<string>, n: nat)
    ensures |KeyParams(keyTypes, n)| == |keyTypes|
  {
    if keyTypes != [] {
      KeyParamsCount(keyTypes[1..], n + 1);
    }
  }

  /** One key for each lookup, numbered from 0. */
  predicate AreKeys(params: seq<LibParam>, keyTypes: seq<string>) {
    && |params| == |keyTypes|
    && forall k :: 0 <= k < |params| ==>
         params[k] == LibParam("key" + Decimal(k), keyTypes[k], if IsDynamic(keyTypes[k]) then "memory" else "")
  }

  /** Name, type, expression, keys and location of the getter for a path below a member of a variable. */
  predicate IsGetter(v: OwnedVar, member: string, t: string, words: seq<string>, path: seq<Step>, leafType: string, r: StorageReader) {
    && r.name == t + Underscored(words) && r.solidityType == leafType
    && r.accessExpression == v.varName + ("." + member) + AccessText(path, 0)
    && r.location == (if IsDynamic(leafType) then "memory" else "")
    && AreKeys(r.params, LookupTypes(path))
  }

  lemma KeysAreNumbered(keyTypes: seq<string>)
    ensures AreKeys(KeyParams(keyTypes, 0), keyTypes)
  {
    KeyParamsCount(keyTypes, 0);
    forall k | 0 <= k < |keyTypes|
      ensures KeyParams(keyTypes, 0)[k] == LibParam("key" + Decimal(k), keyTypes[k], if IsDynamic(keyTypes[k]) then "memory" else "")
    {
      KeyParamAt(keyTypes, 0, k);
    }
  }

  lemma GetterAccess(c: Cursor, path: seq<Step>)
    requires c.params == []
    ensures AdvanceAll(c, path).access == c.access + AccessText(path, 0) && AreKeys(AdvanceAll(c, path).params, LookupTypes(path))
  {
    KeysFollowLookups(c, path);
    PathIsAccess(path, 0);
    KeysAreNumbered(LookupTypes(path));
    assert [] + KeyParams(LookupTypes(path), 0) == KeyParams(LookupTypes(path), 0);
  }

  lemma LeafReader(c: Cursor, leaf: MemberNode)
    ensures var r := ReaderAt(c, leaf);
      && r.name == Join("_", NonEmptySanitized(c.nameParts)) && r.accessExpression == c.access && r.params == c.params
      && r.solidityType == leaf.solidityType && r.location == (if IsDynamic(leaf.solidityType) then "memory" else "")
  {
  }

  /**
   * The getters of a variable of a library type are named after the type and the members on the path,
   * and read the path with one key for each lookup.
   */
  lemma GetterOfPath(v: OwnedVar, libraryName: string, t: string, member: MemberNode, path: seq<Step>, leaf: MemberNode, words: seq<string>)
    requires v.solidityType == libraryName + "." + t && Alphanumeric(t) && FieldsNamed([Field(member.name)] + path, words)
    ensures IsGetter(v, member.name, t, words, path, leaf.solidityType, ReaderAt(AdvanceAll(MemberCursor(v, libraryName, member), path), leaf))
  {
    var c := MemberCursor(v, libraryName, member);
    OwnTypeName(libraryName, t);
    GetterName(c, path, t, member, words);
    GetterAccess(c, path);
    LeafReader(AdvanceAll(c, path), leaf);
  }

  lemma GetterName(c: Cursor, path: seq<Step>, t: string, member: MemberNode, words: seq<string>)
    requires c.nameParts == [t, member.name] && Alphanumeric(t) && FieldsNamed([Field(member.name)] + path, words)
    ensures Join("_", NonEmptySanitized(AdvanceAll(c, path).nameParts)) == t + Underscored(words)
  {
    var steps := [Field(member.name)] + path;
    PartsOfPath(c, path);
    assert steps[1..] == path;
    assert [t, member.name] + FieldNames(path) == [t] + FieldNames(steps);
    FieldsSanitized(steps, words);
    AlphanumericStays(t);
    assert ([t] + FieldNames(steps))[1..] == FieldNames(steps);
    JoinedWords(t, words);
  }
}
