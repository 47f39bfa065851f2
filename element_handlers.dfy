// Renaming a named element: choose the handler for the element's kind, and
// build the one-line text whose parse yields the replacement identifier.
module ElementHandlers {
  import opened Wrappers
  import opened Text

  /** The element kinds that have a handler of their own. */
  datatype ElementKind = LabelDef | PpDefineStmt | PpAssignStmt | MultiLineMacro | EquDefinition | SymbolDecl

  /** The handlers: one per element kind, and the default one. */
  datatype Handler = KindHandler(kind: ElementKind) | DefaultHandler

  /** The handler table in the order it is searched. */
  const Handlers: seq<ElementKind> := [LabelDef, PpDefineStmt, PpAssignStmt, MultiLineMacro, EquDefinition, SymbolDecl]

  // ---------------------------------------------------------------- handler choice

  /**
   * The first handler kind, from index i on, that the element's class is
   * assignable to; `assignableTo` holds the kinds whose interface the
   * element's class implements.
   */
  function FirstAssignable(assignableTo: set<ElementKind>, i: nat): (r: Option<nat>)
    requires i <= |Handlers|
    ensures r.Some? ==> i <= r.value < |Handlers| && Handlers[r.value] in assignableTo
    ensures r.Some? ==> forall k :: i <= k < r.value ==> Handlers[k] !in assignableTo
    ensures r.None? ==> forall k :: i <= k < |Handlers| ==> Handlers[k] !in assignableTo
    decreases |Handlers| - i
  {
    if i == |Handlers| then None
    else if Handlers[i] in assignableTo then Some(i)
    else FirstAssignable(assignableTo, i + 1)
  }

  /** The table has a handler for every kind. */
  lemma EveryKindHandled()
    ensures forall k: ElementKind :: k in Handlers
  {
    forall k: ElementKind
      ensures k in Handlers
    {
      match k
      case LabelDef => assert Handlers[0] == k;
      case PpDefineStmt => assert Handlers[1] == k;
      case PpAssignStmt => assert Handlers[2] == k;
      case MultiLineMacro => assert Handlers[3] == k;
      case EquDefinition => assert Handlers[4] == k;
      case SymbolDecl => assert Handlers[5] == k;
    }
  }

  /** `getHandler`: the first handler in table order that fits, otherwise the default. */
  function GetHandler(assignableTo: set<ElementKind>): (h: Handler)
    ensures h.DefaultHandler? <==> assignableTo == {}
    ensures h.KindHandler? ==> h.kind in assignableTo
  {
    EveryKindHandled();
    match FirstAssignable(assignableTo, 0)
    case Some(k) => KindHandler(Handlers[k])
    case None =>
      assert assignableTo == {} by {
        forall x | x in assignableTo
          ensures false
        {
          var k :| 0 <= k < |Handlers| && Handlers[k] == x;
        }
      }
      DefaultHandler
  }

  /**
   * An element of exactly one kind gets that kind's handler; an element
   * that is a label definition gets the label handler whatever else it is.
   */
  lemma GetHandlerOfKind(assignableTo: set<ElementKind>, kind: ElementKind)
    ensures GetHandler({kind}) == KindHandler(kind)
    ensures LabelDef in assignableTo ==> GetHandler(assignableTo) == KindHandler(LabelDef)
  {
    if LabelDef in assignableTo {
      assert Handlers[0] == LabelDef;
    }
  }

  // ---------------------------------------------------------------- dummy file texts

  /** The prefix the label handler puts before the new name. */
  function LabelPrefix(oldName: Option<string>, newName: string): (p: string)
    ensures p == "" || p == "." || p == ".."
  {
    if StartsWith(newName, ".") || StartsWith(newName, "..") then ""
    else if oldName.Some? && StartsWith(oldName.value, "..") then ".."
    else if oldName.Some? && StartsWith(oldName.value, ".") then "."
    else ""
  }

  /** The text before the new name in a handler's dummy file. */
  function NamePrefix(h: Handler, oldName: Option<string>, newName: string): string
  {
    match h
    case KindHandler(LabelDef) => LabelPrefix(oldName, newName)
    case KindHandler(PpDefineStmt) => "%define "
    case KindHandler(PpAssignStmt) => "%assign "
    case KindHandler(MultiLineMacro) => "%macro "
    case KindHandler(EquDefinition) => ""
    case KindHandler(SymbolDecl) => "global "
    case DefaultHandler => ""
  }

  /** The text after the new name in a handler's dummy file. */
  function NameSuffix(h: Handler): string
  {
    match h
    case KindHandler(LabelDef) => ":"
    case KindHandler(PpDefineStmt) => " 1"
    case KindHandler(PpAssignStmt) => " 1"
    case KindHandler(MultiLineMacro) => " 0\n%endmacro"
    case KindHandler(EquDefinition) => " equ 0"
    case KindHandler(SymbolDecl) => ""
    case DefaultHandler => ":"
  }

  /** `createDummyFileText` of each handler. */
  function CreateDummyFileText(h: Handler, oldName: Option<string>, newName: string): string
  {
    match h
    case KindHandler(LabelDef) =>
      if StartsWith(newName, ".") || StartsWith(newName, "..") then newName + ":"
      else if oldName.Some? && StartsWith(oldName.value, "..") then ".." + newName + ":"
      else if oldName.Some? && StartsWith(oldName.value, ".") then "." + newName + ":"
      else newName + ":"
    case KindHandler(PpDefineStmt) => "%define " + newName + " 1"
    case KindHandler(PpAssignStmt) => "%assign " + newName + " 1"
    case KindHandler(MultiLineMacro) => "%macro " + newName + " 0\n%endmacro"
    case KindHandler(EquDefinition) => newName + " equ 0"
    case KindHandler(SymbolDecl) => "global " + newName
    case DefaultHandler => newName + ":"
  }

  /**
   * Every dummy text is the new name between the handler's prefix and
   * suffix, so the name can be read back from the span that follows the
   * prefix.
   */
  lemma DummyTextHoldsName(h: Handler, oldName: Option<string>, newName: string)
    ensures CreateDummyFileText(h, oldName, newName) == NamePrefix(h, oldName, newName) + newName + NameSuffix(h)
    ensures var text := CreateDummyFileText(h, oldName, newName);
      var start := |NamePrefix(h, oldName, newName)|;
      start + |newName| <= |text| && text[start..start + |newName|] == newName
  {
    var text := CreateDummyFileText(h, oldName, newName);
    var pre := NamePrefix(h, oldName, newName);
    assert text == pre + newName + NameSuffix(h);
    assert text[|pre|..|pre| + |newName|] == newName;
  }

  /**
   * A label never gets a second dot: a new name with a dot is used as it
   * is, and one without keeps the old name's `..` or `.`, the longer
   * prefix checked first.
   */
  lemma LabelKeepsLocality(oldName: Option<string>, newName: string)
    ensures StartsWith(newName, ".") ==> CreateDummyFileText(KindHandler(LabelDef), oldName, newName) == newName + ":"
    ensures !StartsWith(newName, ".") && oldName.Some? && StartsWith(oldName.value, "..") ==>
      CreateDummyFileText(KindHandler(LabelDef), oldName, newName) == ".." + newName + ":"
    ensures !StartsWith(newName, ".") && oldName.Some? && StartsWith(oldName.value, ".") && !StartsWith(oldName.value, "..") ==>
      CreateDummyFileText(KindHandler(LabelDef), oldName, newName) == "." + newName + ":"
    ensures oldName.None? || !StartsWith(oldName.value, ".") ==>
      CreateDummyFileText(KindHandler(LabelDef), oldName, newName) == newName + ":"
  {
    if StartsWith(newName, "..") {
      assert newName[..1] == newName[..2][..1];
    }
    if oldName.Some? && StartsWith(oldName.value, "..") {
      assert oldName.value[..1] == oldName.value[..2][..1];
    }
  }
}
