/** InjectConverters and its local Process as they run: two lists of registration
    lines grown in place while the parameter generics are walked. */
module ConverterInjection {
  import opened Results
  import opened Text
  import opened TypeShapes
  import opened Dedup
  import opened ConverterResolution

  /** The encoder and decoder lists that InjectConverters threads through Process. */
  class ConverterLists {
    var encoders: seq<string>
    var decoders: seq<string>
    /** The converter types registered so far, in registration order. */
    ghost var converters: seq<string>

    /** The two lists hold one line per registered converter, in step. */
    ghost predicate Valid()
      reads this
    {
      && NoDuplicates(converters)
      && encoders == EncoderLines(converters)
      && decoders == DecoderLines(converters)
    }

    constructor ()
      ensures Valid() && converters == []
    {
      encoders, decoders := [], [];
      converters := [];
    }

    /** Adds the encoder line and the decoder line of a converter, each only when the
        list does not already contain it. */
    method Register(converterType: string)
      requires Valid()
      modifies this
      ensures Valid()
      ensures converters == AddOnce(old(converters), converterType)
      ensures encoders == if converterType in old(converters) then old(encoders)
                          else old(encoders) + [EncoderLine(converterType)]
      ensures decoders == if converterType in old(converters) then old(decoders)
                          else old(decoders) + [DecoderLine(converterType)]
    {
      var encoder := EncoderLine(converterType);
      var decoder := DecoderLine(converterType);
      LineMembership(converters, converterType);
      if encoder !in encoders {
        encoders := encoders + [encoder];
      }
      if decoder !in decoders {
        decoders := decoders + [decoder];
      }
      converters := AddOnce(converters, converterType);
    }
  }

  /** Walks `param` left to right: registers each shape's converter, and the tuple
      converter after a dictionary, then descends into the shape's generic type
      arguments. An unsupported name aborts the walk. */
  method Process(lists: ConverterLists, param: seq<GenericShape>) returns (outcome: Outcome)
    requires lists.Valid()
    modifies lists
    ensures lists.Valid()
    ensures outcome == match Resolve(old(lists.converters), Visit(param))
                       case Ok(_) => Pass
                       case Err(e) => Fail(e)
    ensures outcome.Pass? ==> lists.converters == Resolve(old(lists.converters), Visit(param)).value
    decreases SizeAll(param)
  {
    for i := 0 to |param|
      invariant lists.Valid()
      invariant Resolve(old(lists.converters), Visit(param)) == Resolve(lists.converters, Visit(param[i..]))
    {
      var genericArg := param[i];
      var nestedGenerics := Generics(genericArg.args);
      ghost var later := Visit(nestedGenerics) + Visit(param[i + 1..]);
      VisitFrom(param, i);
      ResolveCons(lists.converters, genericArg, later);

      var converterType := ConverterType(genericArg);
      if converterType.Err? {
        return Fail(converterType.message);
      }
      AddRequirements(lists.converters, genericArg);
      lists.Register(converterType.value);
      if genericArg.name == DictionaryGeneric {
        lists.Register(TupleConverter);
      }

      ResolveAppend(lists.converters, Visit(nestedGenerics), Visit(param[i + 1..]));
      if |nestedGenerics| > 0 {
        SizeAllElement(param, i);
        GenericsSize(genericArg.args);
        var nestedOutcome := Process(lists, nestedGenerics);
        if nestedOutcome.Fail? {
          return nestedOutcome;
        }
      }
    }
    outcome := Pass;
  }

  /** Collects the converter registrations for the selected per-method parameter
      generics: all encoder lines, then all decoder lines, one per line. */
  method InjectConverters(paramGenericArgs: seq<seq<GenericShape>>) returns (r: Result<string>)
    ensures r == ConverterBlock(paramGenericArgs)
  {
    var lists := new ConverterLists();
    assert paramGenericArgs[0..] == paramGenericArgs;
    for i := 0 to |paramGenericArgs|
      invariant lists.Valid()
      invariant Resolution(paramGenericArgs)
             == Resolve(lists.converters, Visit(Flatten(paramGenericArgs[i..])))
    {
      var param := paramGenericArgs[i];
      assert paramGenericArgs[i..][0] == param && paramGenericArgs[i..][1..] == paramGenericArgs[i + 1..];
      VisitAppend(param, Flatten(paramGenericArgs[i + 1..]));
      ResolveAppend(lists.converters, Visit(param), Visit(Flatten(paramGenericArgs[i + 1..])));
      var outcome := Process(lists, param);
      if outcome.Fail? {
        return Err(outcome.message);
      }
    }
    return Ok(Join(NewLine, lists.encoders + lists.decoders));
  }
}
