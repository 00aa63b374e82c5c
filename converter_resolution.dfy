/** What InjectConverters computes, stated on values: which converters the walk over
    the parameter generics requires, the duplicate-free lists of registration lines
    built from them, and the text block that joins those lines. */
module ConverterResolution {
  import opened Results
  import opened Text
  import opened TypeShapes
  import opened Dedup

  const ListGeneric := "IEnumerable"
  const DictionaryGeneric := "IReadOnlyDictionary"
  const TupleGeneric := "Tuple"

  /** The one converter shared by every tuple shape, and needed by every dictionary. */
  const TupleConverter := "TupleConverter"

  /** Environment.NewLine, taken as a line feed. */
  const NewLine := "\n"

  const EncoderPrefix := "PyObjectConversions.RegisterEncoder(new "
  const DecoderPrefix := "PyObjectConversions.RegisterDecoder(new "
  const LineSuffix := "());"

  /** The generic names the converter table knows. */
  predicate Supported(name: string)
  {
    name == ListGeneric || name == DictionaryGeneric || name == TupleGeneric
  }

  /** The converter type for one generic shape; any name outside the table is the
      NotImplementedException the generator throws. */
  function ConverterType(g: GenericShape): (r: Result<string>)
    ensures r.Ok? <==> Supported(g.name)
    ensures r.Err? ==> r.message == "No converter for " + g.name
  {
    if g.name == ListGeneric then Ok("ListConverter" + RenderArgs(g))
    else if g.name == DictionaryGeneric then Ok("DictionaryConverter" + RenderArgs(g))
    else if g.name == TupleGeneric then Ok(TupleConverter)
    else Err("No converter for " + g.name)
  }

  /** The converters one visited shape adds, in order: its own, then the tuple
      converter when it is a dictionary. */
  function Requirements(g: GenericShape): (r: Result<seq<string>>)
    ensures r.Ok? <==> Supported(g.name)
    ensures r.Err? ==> r.message == "No converter for " + g.name
    ensures r.Ok? ==> (TupleConverter in r.value <==> g.name == DictionaryGeneric || g.name == TupleGeneric)
  {
    match ConverterType(g)
    case Err(e) => Err(e)
    case Ok(c) => Ok([c] + (if g.name == DictionaryGeneric then [TupleConverter] else []))
  }

  /** A walk of one shape requires exactly that shape's converters; with
      RequiredAppend this fixes the order and the repeats of the requirements. */
  lemma RequiredOne(g: GenericShape)
    ensures RequiredConverters([g]) == Requirements(g)
  {
    assert [g][0] == g && [g][1..] == [];
    if Requirements(g).Ok? {
      assert Requirements(g).value + [] == Requirements(g).value;
    }
  }

  /** The converters required along a sequence of visited shapes, repeats included;
      the first unsupported shape aborts. */
  function RequiredConverters(vs: seq<GenericShape>): (r: Result<seq<string>>)
    ensures r.Ok? ==> |vs| <= |r.value|
  {
    if vs == [] then Ok([])
    else
      match Requirements(vs[0])
      case Err(e) => Err(e)
      case Ok(r) =>
        match RequiredConverters(vs[1..])
        case Err(e) => Err(e)
        case Ok(rest) => Ok(r + rest)
  }

  /** The converter list after visiting `vs`, starting from the converters `cs`
      already registered. */
  function Resolve(cs: seq<string>, vs: seq<GenericShape>): Result<seq<string>>
  {
    match RequiredConverters(vs)
    case Err(e) => Err(e)
    case Ok(req) => Ok(AddAll(cs, req))
  }

  function Flatten(pga: seq<seq<GenericShape>>): seq<GenericShape>
  {
    if pga == [] then [] else pga[0] + Flatten(pga[1..])
  }

  /** The converters InjectConverters registers for the selected per-method lists. */
  function Resolution(pga: seq<seq<GenericShape>>): Result<seq<string>>
  {
    Resolve([], Visit(Flatten(pga)))
  }

  function EncoderLine(c: string): string
  {
    EncoderPrefix + c + LineSuffix
  }

  function DecoderLine(c: string): string
  {
    DecoderPrefix + c + LineSuffix
  }

  function EncoderLines(cs: seq<string>): seq<string>
  {
    seq(|cs|, i requires 0 <= i < |cs| => EncoderLine(cs[i]))
  }

  function DecoderLines(cs: seq<string>): seq<string>
  {
    seq(|cs|, i requires 0 <= i < |cs| => DecoderLine(cs[i]))
  }

  /** A registration line with RegisterEncoder replaced by RegisterDecoder. */
  function AsDecoderLine(line: string): string
  {
    if EncoderPrefix <= line then DecoderPrefix + line[|EncoderPrefix|..] else line
  }

  /** The text InjectConverters returns: every encoder line, then every decoder line. */
  function ConverterBlock(pga: seq<seq<GenericShape>>): Result<string>
  {
    match Resolution(pga)
    case Err(e) => Err(e)
    case Ok(cs) => Ok(Join(NewLine, EncoderLines(cs) + DecoderLines(cs)))
  }

  // ---------------------------------------------------------------------------
  // The converter table

  /** Converter identity is the generic name together with its rendered type
      arguments, except that all tuples share one converter. */
  lemma ConverterIdentity(a: GenericShape, b: GenericShape)
    requires Supported(a.name) && Supported(b.name)
    ensures ConverterType(a) == ConverterType(b)
        <==> a.name == b.name && (a.name == TupleGeneric || RenderArgs(a) == RenderArgs(b))
  {
    var ca, cb := ConverterType(a).value, ConverterType(b).value;
    if ca == cb {
      assert ca[0] == cb[0];
      if a.name == ListGeneric && b.name == ListGeneric {
        assert RenderArgs(a) == ca[|"ListConverter"|..] == cb[|"ListConverter"|..] == RenderArgs(b);
      } else if a.name == DictionaryGeneric && b.name == DictionaryGeneric {
        assert RenderArgs(a) == ca[|"DictionaryConverter"|..] == cb[|"DictionaryConverter"|..];
      }
    }
  }

  // ---------------------------------------------------------------------------
  // Required converters along a walk

  lemma {:induction false} RequiredAppend(a: seq<GenericShape>, b: seq<GenericShape>)
    ensures RequiredConverters(a + b)
         == match RequiredConverters(a)
            case Err(e) => Err(e)
            case Ok(ra) =>
              match RequiredConverters(b)
              case Err(e) => Err(e)
              case Ok(rb) => Ok(ra + rb)
  {
    if a == [] {
      assert a + b == b;
      if RequiredConverters(b).Ok? {
        assert [] + RequiredConverters(b).value == RequiredConverters(b).value;
      }
    } else {
      assert (a + b)[0] == a[0] && (a + b)[1..] == a[1..] + b;
      RequiredAppend(a[1..], b);
      var r0, ra, rb := Requirements(a[0]), RequiredConverters(a[1..]), RequiredConverters(b);
      if r0.Ok? && ra.Ok? && rb.Ok? {
        assert r0.value + (ra.value + rb.value) == (r0.value + ra.value) + rb.value;
      }
    }
  }

  /** `k` is the first position of `vs` whose name the table does not know. */
  ghost predicate FirstUnsupportedAt(vs: seq<GenericShape>, k: int)
  {
    0 <= k < |vs| && !Supported(vs[k].name) && forall j :: 0 <= j < k ==> Supported(vs[j].name)
  }

  /** The walk fails exactly when it meets an unsupported name, and then reports the
      first one it meets. */
  lemma {:induction false} RequiredFailure(vs: seq<GenericShape>)
    ensures RequiredConverters(vs).Err? <==> exists v :: v in vs && !Supported(v.name)
    ensures forall k :: FirstUnsupportedAt(vs, k) ==>
              RequiredConverters(vs) == Err("No converter for " + vs[k].name)
  {
    if vs != [] {
      RequiredFailure(vs[1..]);
      if exists v :: v in vs && !Supported(v.name) {
        var v :| v in vs && !Supported(v.name);
        if v != vs[0] {
          assert v in vs[1..];
        }
      }
      forall k | FirstUnsupportedAt(vs, k)
        ensures RequiredConverters(vs) == Err("No converter for " + vs[k].name)
      {
        if k > 0 {
          assert FirstUnsupportedAt(vs[1..], k - 1);
        }
      }
      if exists v :: v in vs[1..] && !Supported(v.name) {
        var v :| v in vs[1..] && !Supported(v.name);
        assert v in vs;
      }
    }
  }

  /** Every visited shape contributes its converter, and a dictionary the tuple
      converter too. */
  lemma {:induction false} RequiredCovers(vs: seq<GenericShape>, v: GenericShape)
    requires RequiredConverters(vs).Ok? && v in vs
    ensures ConverterType(v).Ok? && ConverterType(v).value in RequiredConverters(vs).value
    ensures v.name == DictionaryGeneric ==> TupleConverter in RequiredConverters(vs).value
  {
    if v != vs[0] {
      assert v in vs[1..];
      RequiredCovers(vs[1..], v);
    }
  }

  /** Nothing else is required: each converter is that of a visited shape, or the
      tuple converter required by a visited dictionary. */
  lemma {:induction false} RequiredSound(vs: seq<GenericShape>, c: string)
    requires RequiredConverters(vs).Ok? && c in RequiredConverters(vs).value
    ensures exists v :: v in vs && ConverterType(v).Ok? &&
              (c == ConverterType(v).value || (v.name == DictionaryGeneric && c == TupleConverter))
  {
    var r := Requirements(vs[0]).value;
    if c in r {
      assert vs[0] in vs;
    } else {
      RequiredSound(vs[1..], c);
      var v :| v in vs[1..] && ConverterType(v).Ok? &&
                (c == ConverterType(v).value || (v.name == DictionaryGeneric && c == TupleConverter));
      assert v in vs;
    }
  }

  // ---------------------------------------------------------------------------
  // Resolving: required converters added once each

  /** Visiting one shape then the rest is adding its converters, then visiting the rest. */
  lemma ResolveCons(cs: seq<string>, g: GenericShape, rest: seq<GenericShape>)
    ensures Requirements(g).Err? ==> Resolve(cs, [g] + rest) == Err(Requirements(g).message)
    ensures Requirements(g).Ok? ==> Resolve(cs, [g] + rest) == Resolve(AddAll(cs, Requirements(g).value), rest)
  {
    var vs := [g] + rest;
    assert vs[0] == g && vs[1..] == rest;
    var first, later := Requirements(g), RequiredConverters(rest);
    if first.Ok? && later.Ok? {
      AddAllAppend(cs, first.value, later.value);
    }
  }

  /** Adding one shape's requirements is one AddOnce, or two for a dictionary. */
  lemma AddRequirements(cs: seq<string>, g: GenericShape)
    requires ConverterType(g).Ok?
    ensures var c := ConverterType(g).value;
      AddAll(cs, Requirements(g).value)
        == if g.name == DictionaryGeneric then AddOnce(AddOnce(cs, c), TupleConverter) else AddOnce(cs, c)
  {
    var c := ConverterType(g).value;
    if g.name == DictionaryGeneric {
      var req := [c, TupleConverter];
      assert Requirements(g).value == req;
      assert req[..1] == [c] && req[1] == TupleConverter;
      assert AddAll(cs, [c]) == AddOnce(cs, c);
      assert AddAll(cs, req) == AddOnce(AddAll(cs, [c]), TupleConverter);
    } else {
      assert Requirements(g).value == [c];
    }
  }

  /** Visiting `a` then `b` is visiting `a + b`. */
  lemma ResolveAppend(cs: seq<string>, a: seq<GenericShape>, b: seq<GenericShape>)
    ensures Resolve(cs, a).Err? ==> Resolve(cs, a + b) == Err(Resolve(cs, a).message)
    ensures Resolve(cs, a).Ok? ==> Resolve(cs, a + b) == Resolve(Resolve(cs, a).value, b)
  {
    RequiredAppend(a, b);
    var ra, rb := RequiredConverters(a), RequiredConverters(b);
    if ra.Ok? && rb.Ok? {
      AddAllAppend(cs, ra.value, rb.value);
    }
  }

  /** Resolving only appends: the converters already registered stay, in place. */
  lemma ResolveAppendOnly(cs: seq<string>, vs: seq<GenericShape>)
    requires Resolve(cs, vs).Ok?
    ensures |cs| <= |Resolve(cs, vs).value| && Resolve(cs, vs).value[..|cs|] == cs
  {
    AddAllExtends(cs, RequiredConverters(vs).value);
  }

  // ---------------------------------------------------------------------------
  // What InjectConverters promises about its output

  lemma {:induction false} FlattenAppend(a: seq<seq<GenericShape>>, b: seq<seq<GenericShape>>)
    ensures Flatten(a + b) == Flatten(a) + Flatten(b)
  {
    if a == [] {
      assert a + b == b;
    } else {
      assert (a + b)[0] == a[0] && (a + b)[1..] == a[1..] + b;
      FlattenAppend(a[1..], b);
    }
  }

  /** The whole resolution fails exactly when some generic reachable from a parameter
      type has a name outside the table; it then names the first one the walk meets. */
  lemma ResolutionFailure(pga: seq<seq<GenericShape>>)
    ensures Resolution(pga).Err?
        <==> exists p, u :: p in Flatten(pga) && Reaches(p, u) && !Supported(u.name)
    ensures forall k :: FirstUnsupportedAt(Visit(Flatten(pga)), k) ==>
              Resolution(pga) == Err("No converter for " + Visit(Flatten(pga))[k].name)
  {
    var ps := Flatten(pga);
    var vs := Visit(ps);
    RequiredFailure(vs);
    if exists v :: v in vs && !Supported(v.name) {
      var v :| v in vs && !Supported(v.name);
      VisitReaches(ps, v);
    }
    if exists p, u :: p in ps && Reaches(p, u) && !Supported(u.name) {
      var p, u :| p in ps && Reaches(p, u) && !Supported(u.name);
      VisitReaches(ps, u);
    }
  }

  /** Every generic reachable from a parameter type, through generic-only nesting, has
      its converter registered; a reachable dictionary brings the tuple converter. */
  lemma ResolutionCovers(pga: seq<seq<GenericShape>>, p: GenericShape, u: TypeShape)
    requires Resolution(pga).Ok?
    requires p in Flatten(pga) && Reaches(p, u)
    ensures u.Generic? && ConverterType(u).Ok?
    ensures ConverterType(u).value in Resolution(pga).value
    ensures u.name == DictionaryGeneric ==> TupleConverter in Resolution(pga).value
  {
    var ps := Flatten(pga);
    var vs := Visit(ps);
    var req := RequiredConverters(vs).value;
    VisitReaches(ps, u);
    assert u in vs;
    RequiredCovers(vs, u);
    AddAllFirstSeen([], req);
  }

  /** Every registered converter belongs to a generic reachable from a parameter type,
      or is the tuple converter required by a reachable dictionary. */
  lemma ResolutionSound(pga: seq<seq<GenericShape>>, c: string)
    requires Resolution(pga).Ok? && c in Resolution(pga).value
    ensures exists p, u :: p in Flatten(pga) && Reaches(p, u) && u.Generic? &&
              ConverterType(u).Ok? &&
              (c == ConverterType(u).value || (u.name == DictionaryGeneric && c == TupleConverter))
  {
    var ps := Flatten(pga);
    var vs := Visit(ps);
    var req := RequiredConverters(vs).value;
    AddAllFirstSeen([], req);
    assert c in req;
    RequiredSound(vs, c);
    var v :| v in vs && ConverterType(v).Ok? &&
              (c == ConverterType(v).value || (v.name == DictionaryGeneric && c == TupleConverter));
    VisitReaches(ps, v);
  }

  /** The registered converters are the required ones, each once, in the order of
      their first requirement along the walk. */
  lemma ResolutionFirstSeen(pga: seq<seq<GenericShape>>)
    requires Resolution(pga).Ok?
    ensures RequiredConverters(Visit(Flatten(pga))).Ok?
    ensures var cs, req := Resolution(pga).value, RequiredConverters(Visit(Flatten(pga))).value;
      && NoDuplicates(cs)
      && (forall c :: c in cs <==> c in req)
      && InFirstSeenOrder(cs, req)
  {
    var req := RequiredConverters(Visit(Flatten(pga))).value;
    AddAllFirstSeen([], req);
    assert [] + req == req;
  }

  /** The registered converters are the only duplicate-free list of the required
      converters in the order of their first requirement. */
  lemma ResolutionCharacterized(pga: seq<seq<GenericShape>>, cs: seq<string>)
    requires Resolution(pga).Ok?
    ensures var req := RequiredConverters(Visit(Flatten(pga))).value;
      (cs == Resolution(pga).value)
        <==> (NoDuplicates(cs) && (forall c :: c in cs <==> c in req) && InFirstSeenOrder(cs, req))
  {
    ResolutionFirstSeen(pga);
    var req := RequiredConverters(Visit(Flatten(pga))).value;
    if NoDuplicates(cs) && (forall c :: c in cs <==> c in req) && InFirstSeenOrder(cs, req) {
      FirstSeenUnique(cs, Resolution(pga).value, req);
    }
  }

  lemma EncoderLineInjective(a: string, b: string)
    ensures EncoderLine(a) == EncoderLine(b) ==> a == b
    ensures DecoderLine(a) == DecoderLine(b) ==> a == b
  {
    var n, m := |EncoderPrefix|, |LineSuffix|;
    if EncoderLine(a) == EncoderLine(b) {
      assert a == EncoderLine(a)[n..|EncoderLine(a)| - m];
      assert b == EncoderLine(b)[n..|EncoderLine(b)| - m];
    }
    if DecoderLine(a) == DecoderLine(b) {
      assert a == DecoderLine(a)[n..|DecoderLine(a)| - m];
      assert b == DecoderLine(b)[n..|DecoderLine(b)| - m];
    }
  }

  /** A converter's line is in a list of lines exactly when the converter is in the
      list it was made from. */
  lemma LineMembership(cs: seq<string>, c: string)
    ensures EncoderLine(c) in EncoderLines(cs) <==> c in cs
    ensures DecoderLine(c) in DecoderLines(cs) <==> c in cs
    ensures EncoderLines(cs + [c]) == EncoderLines(cs) + [EncoderLine(c)]
    ensures DecoderLines(cs + [c]) == DecoderLines(cs) + [DecoderLine(c)]
  {
    if EncoderLine(c) in EncoderLines(cs) {
      var i :| 0 <= i < |cs| && EncoderLines(cs)[i] == EncoderLine(c);
      EncoderLineInjective(cs[i], c);
    }
    if DecoderLine(c) in DecoderLines(cs) {
      var i :| 0 <= i < |cs| && DecoderLines(cs)[i] == DecoderLine(c);
      EncoderLineInjective(cs[i], c);
    }
    if c in cs {
      var i :| 0 <= i < |cs| && cs[i] == c;
      assert EncoderLines(cs)[i] == EncoderLine(c);
      assert DecoderLines(cs)[i] == DecoderLine(c);
    }
  }

  /** Neither list of registration lines repeats a line, and the decoder list is the
      encoder list with RegisterEncoder replaced by RegisterDecoder, line by line. */
  lemma RegistrationLines(cs: seq<string>)
    requires NoDuplicates(cs)
    ensures NoDuplicates(EncoderLines(cs)) && NoDuplicates(DecoderLines(cs))
    ensures |DecoderLines(cs)| == |EncoderLines(cs)|
    ensures forall i :: 0 <= i < |cs| ==> DecoderLines(cs)[i] == AsDecoderLine(EncoderLines(cs)[i])
  {
    forall i, j | 0 <= i < j < |cs|
      ensures EncoderLines(cs)[i] != EncoderLines(cs)[j] && DecoderLines(cs)[i] != DecoderLines(cs)[j]
    {
      EncoderLineInjective(cs[i], cs[j]);
    }
    forall i | 0 <= i < |cs| ensures DecoderLines(cs)[i] == AsDecoderLine(EncoderLines(cs)[i]) {
      var line := EncoderLines(cs)[i];
      assert line[..|EncoderPrefix|] == EncoderPrefix;
      assert line[|EncoderPrefix|..] == cs[i] + LineSuffix;
    }
  }

  /** The output of a successful resolution: each list duplicate-free, the two in
      step, and the block splits back into the encoder lines followed by the decoder
      lines when no converter name holds a line break. */
  lemma ConverterBlockLines(pga: seq<seq<GenericShape>>)
    requires Resolution(pga).Ok?
    ensures var cs := Resolution(pga).value;
      && ConverterBlock(pga).Ok?
      && NoDuplicates(EncoderLines(cs)) && NoDuplicates(DecoderLines(cs))
      && (cs != [] && (forall c :: c in cs ==> '\n' !in c) ==>
            Split(ConverterBlock(pga).value, '\n') == EncoderLines(cs) + DecoderLines(cs))
  {
    var cs := Resolution(pga).value;
    ResolutionFirstSeen(pga);
    RegistrationLines(cs);
    if cs != [] && (forall c :: c in cs ==> '\n' !in c) {
      var lines := EncoderLines(cs) + DecoderLines(cs);
      LinesWithoutLineBreaks(cs);
      assert NewLine == ['\n'];
      SplitJoin(lines, '\n');
    }
  }

  lemma LinesWithoutLineBreaks(cs: seq<string>)
    requires forall c :: c in cs ==> '\n' !in c
    ensures forall l :: l in EncoderLines(cs) + DecoderLines(cs) ==> '\n' !in l
  {
    var lines := EncoderLines(cs) + DecoderLines(cs);
    forall i | 0 <= i < |lines| ensures '\n' !in lines[i] {
      if i < |cs| {
        assert cs[i] in cs;
        assert lines[i] == EncoderPrefix + cs[i] + LineSuffix;
      } else {
        assert cs[i - |cs|] in cs;
        assert lines[i] == DecoderPrefix + cs[i - |cs|] + LineSuffix;
      }
    }
  }

  /** Parameters without generic types give an empty block. */
  lemma NoGenericsNoOutput(pga: seq<seq<GenericShape>>)
    requires forall l :: l in pga ==> l == []
    ensures ConverterBlock(pga) == Ok("")
  {
    assert Flatten(pga) == [] by {
      FlattenEmpty(pga);
    }
  }

  lemma {:induction false} FlattenEmpty(pga: seq<seq<GenericShape>>)
    requires forall l :: l in pga ==> l == []
    ensures Flatten(pga) == []
  {
    if pga != [] {
      assert pga[0] in pga;
      assert forall l :: l in pga[1..] ==> l in pga;
      FlattenEmpty(pga[1..]);
    }
  }

  // ---------------------------------------------------------------------------
  // Worked examples: f(IEnumerable<int> x), g(IReadOnlyDictionary<string, IEnumerable<int>> y)
  // and h(Custom<int> z)

  const IntList: GenericShape := Generic(ListGeneric, [Simple("int")])
  const StringToIntLists: GenericShape := Generic(DictionaryGeneric, [Simple("string"), IntList])
  const CustomOfInt: GenericShape := Generic("Custom", [Simple("int")])

  const IntListConverter := "ListConverter<int>"
  const StringToIntListsConverter := "DictionaryConverter<string, IEnumerable<int>>"

  /** A list of a non-generic type is visited alone and needs only its list converter. */
  lemma ExampleListOfInt()
    ensures Visit([IntList]) == [IntList]
    ensures Requirements(IntList) == Ok([IntListConverter])
    ensures RequiredConverters([IntList]) == Ok([IntListConverter])
  {
    assert IntList.args[1..] == [];
    assert Generics(IntList.args) == [];
    assert [IntList][1..] == [];
    assert RenderAll(IntList.args) == ["int"];
    assert RenderArgs(IntList) == "<int>";
    assert "ListConverter" + "<int>" == IntListConverter;
    assert IntList.name != DictionaryGeneric by {
      assert IntList.name[1] != DictionaryGeneric[1];
    }
    assert [IntListConverter] + [] == [IntListConverter];
  }

  lemma ExampleRenderDictionary()
    ensures RenderArgs(StringToIntLists) == "<string, IEnumerable<int>>"
  {
    var args := StringToIntLists.args;
    assert Render(IntList) == "IEnumerable<int>" by {
      assert IntList.args[1..] == [];
      assert RenderAll(IntList.args) == ["int"];
      assert Join(", ", ["int"]) == "int";
    }
    assert RenderAll([IntList]) == ["IEnumerable<int>"] by {
      assert [IntList][1..] == [];
    }
    assert args[1..] == [IntList];
    assert RenderAll(args) == ["string"] + RenderAll([IntList]);
    assert Join(", ", ["IEnumerable<int>"]) == "IEnumerable<int>";
    assert Join(", ", ["string", "IEnumerable<int>"]) == "string" + ", " + "IEnumerable<int>";
  }

  lemma ExampleDictionaryArguments()
    ensures Generics(StringToIntLists.args) == [IntList]
  {
    var args := StringToIntLists.args;
    assert args[1..] == [IntList] && args[1..][1..] == [];
    assert Generics(args[1..]) == [IntList];
  }

  /** A dictionary whose values are lists: the walk descends into the list. */
  lemma ExampleDictionaryVisit()
    ensures Visit([StringToIntLists]) == [StringToIntLists, IntList]
  {
    ExampleListOfInt();
    ExampleDictionaryArguments();
    assert [StringToIntLists][1..] == [];
  }

  /** The dictionary needs its own converter, then the tuple converter. */
  lemma ExampleDictionaryRequirements()
    ensures Requirements(StringToIntLists) == Ok([StringToIntListsConverter, TupleConverter])
  {
    ExampleRenderDictionary();
    assert StringToIntLists.name != ListGeneric by {
      assert StringToIntLists.name[1] != ListGeneric[1];
    }
    assert "DictionaryConverter" + "<string, IEnumerable<int>>" == StringToIntListsConverter;
    assert ConverterType(StringToIntLists) == Ok(StringToIntListsConverter);
    assert [StringToIntListsConverter] + [TupleConverter] == [StringToIntListsConverter, TupleConverter];
  }

  /** f then g: the list converter once, the dictionary converter, then the tuple
      converter it implies; the nested IEnumerable<int> is already registered. */
  lemma ExampleListAndDictionary()
    ensures Resolution([[IntList], [StringToIntLists]])
         == Ok([IntListConverter, StringToIntListsConverter, TupleConverter])
  {
    ExampleListOfInt();
    ExampleDictionaryVisit();
    ExampleDictionaryRequirements();
    var pga: seq<seq<GenericShape>> := [[IntList], [StringToIntLists]];
    assert Flatten(pga) == [IntList, StringToIntLists] by {
      assert pga[1..] == [[StringToIntLists]] && pga[1..][1..] == [];
      assert Flatten(pga[1..]) == [StringToIntLists];
    }
    var vs := [IntList, StringToIntLists, IntList];
    assert Visit([IntList, StringToIntLists]) == vs by {
      assert [IntList, StringToIntLists][1..] == [StringToIntLists];
    }
    var req := [IntListConverter, StringToIntListsConverter, TupleConverter, IntListConverter];
    assert RequiredConverters(vs) == Ok(req) by {
      var tail := [StringToIntLists, IntList];
      assert vs[0] == IntList && vs[1..] == tail;
      assert tail[0] == StringToIntLists && tail[1..] == [IntList];
      assert RequiredConverters(tail) == Ok([StringToIntListsConverter, TupleConverter] + [IntListConverter]);
      assert [IntListConverter] + ([StringToIntListsConverter, TupleConverter] + [IntListConverter]) == req;
    }
    assert req[..3][..2] == [IntListConverter, StringToIntListsConverter];
    assert req[..3][..2][..1] == [IntListConverter];
    assert req[..3][..2][..1][..0] == [];
    assert AddAll([], req[..3][..2][..1]) == [IntListConverter];
    assert AddAll([], req[..3][..2]) == [IntListConverter, StringToIntListsConverter];
    assert AddAll([], req[..3]) == [IntListConverter, StringToIntListsConverter, TupleConverter];
  }

  /** f then h: the unsupported Custom aborts the whole resolution, naming it. */
  lemma ExampleUnsupported()
    ensures Resolution([[IntList], [CustomOfInt]]) == Err("No converter for Custom")
  {
    ExampleListOfInt();
    var pga: seq<seq<GenericShape>> := [[IntList], [CustomOfInt]];
    assert Flatten(pga) == [IntList, CustomOfInt] by {
      assert pga[1..] == [[CustomOfInt]] && pga[1..][1..] == [];
      assert Flatten(pga[1..]) == [CustomOfInt];
    }
    ResolutionFailure(pga);
    var vs := Visit([IntList, CustomOfInt]);
    assert vs == [IntList, CustomOfInt] by {
      assert CustomOfInt.args[1..] == [] && IntList.args[1..] == [];
      assert Generics(CustomOfInt.args) == [] && Generics(IntList.args) == [];
      assert [IntList, CustomOfInt][1..] == [CustomOfInt] && [CustomOfInt][1..] == [];
      assert Visit([CustomOfInt]) == [CustomOfInt];
    }
    assert FirstUnsupportedAt(vs, 1);
  }
}
