/** The step of FormatClassFromMethods that chooses what InjectConverters sees: the
    per-method lists of parameter generics, null and empty lists left out. */
module MethodSelection {
  import opened Results
  import opened TypeShapes
  import opened ConverterResolution
  import opened ConverterInjection

  /** One reflected Python function: its name, its return type, and the generic
      types among its parameters, which may be null. */
  datatype MethodDefinition = MethodDefinition(
    name: string,
    returnType: TypeShape,
    parameterGenericArgs: Option<seq<GenericShape>>)

  /** The non-null, non-empty parameter generic lists, in method order. */
  function ParameterGenericArgs(methods: seq<MethodDefinition>): (selected: seq<seq<GenericShape>>)
    ensures forall l :: l in selected ==> l != []
    ensures |selected| <= |methods|
  {
    if methods == [] then []
    else
      var rest := ParameterGenericArgs(methods[1..]);
      match methods[0].parameterGenericArgs
      case Some(l) => if l != [] then [l] + rest else rest
      case None => rest
  }

  /** Every method's parameter generics, one after the other, a null list as none. */
  function AllParameterGenerics(methods: seq<MethodDefinition>): seq<GenericShape>
  {
    if methods == [] then []
    else
      (match methods[0].parameterGenericArgs
       case Some(l) => l
       case None => [])
      + AllParameterGenerics(methods[1..])
  }

  /** A list is selected exactly when it is non-empty and some method carries it. */
  lemma {:induction false} SelectedLists(methods: seq<MethodDefinition>, l: seq<GenericShape>)
    ensures l in ParameterGenericArgs(methods)
        <==> l != [] && exists m :: m in methods && m.parameterGenericArgs == Some(l)
  {
    if methods != [] {
      SelectedLists(methods[1..], l);
      if exists m :: m in methods && m.parameterGenericArgs == Some(l) {
        var m :| m in methods && m.parameterGenericArgs == Some(l);
        if m != methods[0] {
          assert m in methods[1..];
        }
      }
      if exists m :: m in methods[1..] && m.parameterGenericArgs == Some(l) {
        var m :| m in methods[1..] && m.parameterGenericArgs == Some(l);
        assert m in methods;
      }
    }
  }

  /** Leaving out null and empty lists loses no parameter generic, nor changes their order. */
  lemma {:induction false} SelectionKeepsGenerics(methods: seq<MethodDefinition>)
    ensures Flatten(ParameterGenericArgs(methods)) == AllParameterGenerics(methods)
  {
    if methods != [] {
      SelectionKeepsGenerics(methods[1..]);
      var rest := ParameterGenericArgs(methods[1..]);
      match methods[0].parameterGenericArgs
      case None =>
      case Some(l) =>
        if l != [] {
          assert ([l] + rest)[0] == l && ([l] + rest)[1..] == rest;
        }
    }
  }

  /** Only the parameter generics are read: methods that differ in name or return
      type select the same lists. */
  lemma {:induction false} ReturnTypesIgnored(methods: seq<MethodDefinition>, others: seq<MethodDefinition>)
    requires |methods| == |others|
    requires forall i :: 0 <= i < |methods| ==>
               methods[i].parameterGenericArgs == others[i].parameterGenericArgs
    ensures ParameterGenericArgs(methods) == ParameterGenericArgs(others)
  {
    if methods != [] {
      ReturnTypesIgnored(methods[1..], others[1..]);
    }
  }

  /** With no parameter generics anywhere there is nothing to register. */
  lemma NoParameterGenerics(methods: seq<MethodDefinition>)
    requires forall m :: m in methods ==> m.parameterGenericArgs in {None, Some([])}
    ensures ParameterGenericArgs(methods) == []
    ensures ConverterBlock(ParameterGenericArgs(methods)) == Ok("")
  {
    if ParameterGenericArgs(methods) != [] {
      var l := ParameterGenericArgs(methods)[0];
      SelectedLists(methods, l);
    }
    NoGenericsNoOutput([]);
  }

  /** The converter block that FormatClassFromMethods places in the adapter's constructor. */
  method ConverterSection(methods: seq<MethodDefinition>) returns (r: Result<string>)
    ensures r == ConverterBlock(ParameterGenericArgs(methods))
  {
    var paramGenericArgs := ParameterGenericArgs(methods);
    r := InjectConverters(paramGenericArgs);
  }
}
