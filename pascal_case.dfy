/** The type name derived from a Python file name: snake_case to PascalCase, by
    splitting on '_' and upper-casing the first character of each segment. */
module PascalCasing {
  import opened Results
  import opened Text

  /** char.ToUpperInvariant on the ASCII letters; every other character is kept. */
  function ToUpper(c: char): (u: char)
    ensures 'a' <= c <= 'z' ==> 'A' <= u <= 'Z' && u as int - 'A' as int == c as int - 'a' as int
    ensures !('a' <= c <= 'z') ==> u == c
  {
    if 'a' <= c <= 'z' then (c as int - 32) as char else c
  }

  /** A segment with its first character upper-cased. */
  function Capitalize(segment: string): (r: string)
    ensures |r| == |segment|
    ensures segment != "" ==> r[0] == ToUpper(segment[0]) && r[1..] == segment[1..]
  {
    if segment == "" then "" else [ToUpper(segment[0])] + segment[1..]
  }

  function CapitalizeAll(segments: seq<string>): (r: seq<string>)
    ensures |r| == |segments|
  {
    seq(|segments|, i requires 0 <= i < |segments| => Capitalize(segments[i]))
  }

  /** The message of the IndexOutOfRangeException that `s[0]` throws on an empty segment. */
  const IndexOutOfRange := "Index was outside the bounds of the array."

  /** Split on '_', capitalize each segment, join with nothing between; an empty
      segment aborts the conversion. */
  function PascalCase(fileName: string): (r: Result<string>)
    ensures r.Err? ==> r.message == IndexOutOfRange
    ensures r.Ok? ==> '_' !in r.value
  {
    var segments := Split(fileName, '_');
    if "" in segments then Err(IndexOutOfRange)
    else
      CapitalizeKeepsOut(segments);
      JoinAvoids("", CapitalizeAll(segments), '_');
      Ok(Join("", CapitalizeAll(segments)))
  }

  /** Capitalizing never produces a '_' that was not there. */
  lemma CapitalizeKeepsOut(segments: seq<string>)
    requires forall p :: p in segments ==> '_' !in p
    ensures forall p :: p in CapitalizeAll(segments) ==> '_' !in p
  {
    forall i | 0 <= i < |segments|
      ensures '_' !in CapitalizeAll(segments)[i]
    {
      var p := segments[i];
      assert p in segments;
      if p != "" {
        assert Capitalize(p) == [ToUpper(p[0])] + p[1..];
        assert p[0] in p;
        forall j | 0 < j < |p| ensures p[j] != '_' { assert p[j] in p; }
      }
    }
  }

  /** The conversion read character by character: every '_' is dropped, the first
      character and every character after a '_' is upper-cased, the rest is kept. */
  function PascalFrom(s: string, atSegmentStart: bool): string
  {
    if s == [] then []
    else if s[0] == '_' then PascalFrom(s[1..], true)
    else [if atSegmentStart then ToUpper(s[0]) else s[0]] + PascalFrom(s[1..], false)
  }

  ghost predicate HasDoubleUnderscore(s: string)
  {
    exists i :: 0 <= i < |s| - 1 && s[i] == '_' && s[i + 1] == '_'
  }

  lemma JoinNothingBetween(parts: seq<string>)
    requires parts != []
    ensures Join("", parts) == parts[0] + Join("", parts[1..])
  {
    if |parts| == 1 {
      assert parts[0] + "" == parts[0];
    }
  }

  /** Joining the capitalized segments puts the first capitalized segment before the rest. */
  lemma JoinCapitalized(segments: seq<string>)
    requires segments != []
    ensures Join("", CapitalizeAll(segments))
         == Capitalize(segments[0]) + Join("", CapitalizeAll(segments[1..]))
  {
    assert CapitalizeAll(segments)[0] == Capitalize(segments[0]);
    assert CapitalizeAll(segments)[1..] == CapitalizeAll(segments[1..]);
    JoinNothingBetween(CapitalizeAll(segments));
  }

  /** A leading '_' closes an empty first segment. */
  lemma SplitUnderscore(s: string)
    requires s != [] && s[0] == '_'
    ensures Split(s, '_')[0] == ""
    ensures Split(s, '_')[1..] == Split(s[1..], '_')
  {
  }

  /** Any other leading character belongs to the first segment. */
  lemma SplitOther(s: string)
    requires s != [] && s[0] != '_'
    ensures Split(s, '_')[0] == [s[0]] + Split(s[1..], '_')[0]
    ensures Split(s, '_')[1..] == Split(s[1..], '_')[1..]
  {
  }

  /** The reference reading agrees with split-capitalize-join on every input: the first
      segment is capitalized only at the start of a segment. */
  lemma {:induction false} PascalFromSegments(s: string, atSegmentStart: bool)
    ensures PascalFrom(s, atSegmentStart)
         == (if atSegmentStart then Capitalize(Split(s, '_')[0]) else Split(s, '_')[0])
            + Join("", CapitalizeAll(Split(s, '_')[1..]))
  {
    if s == [] {
    } else if s[0] == '_' {
      PascalFromSegments(s[1..], true);
      SplitUnderscore(s);
      JoinCapitalized(Split(s[1..], '_'));
    } else {
      PascalFromSegments(s[1..], false);
      SplitOther(s);
      var rest := Split(s[1..], '_');
      assert Capitalize([s[0]] + rest[0]) == [ToUpper(s[0])] + rest[0];
    }
  }

  /** A successful conversion is the character-by-character reading of the name. */
  lemma PascalCaseByCharacter(fileName: string)
    requires PascalCase(fileName).Ok?
    ensures PascalCase(fileName).value == PascalFrom(fileName, true)
  {
    PascalFromSegments(fileName, true);
    JoinCapitalized(Split(fileName, '_'));
  }

  /** The character-by-character reading drops exactly the underscores and adds none. */
  lemma {:induction false} PascalFromShape(s: string, atSegmentStart: bool)
    ensures '_' !in PascalFrom(s, atSegmentStart)
    ensures |PascalFrom(s, atSegmentStart)| == |s| - Count(s, '_')
  {
    if s != [] {
      if s[0] == '_' {
        PascalFromShape(s[1..], true);
      } else {
        PascalFromShape(s[1..], false);
      }
    }
  }

  /** A converted name holds no '_' and is shorter than the file name by its number of '_'. */
  lemma PascalCaseShape(fileName: string)
    requires PascalCase(fileName).Ok?
    ensures '_' !in PascalCase(fileName).value
    ensures |PascalCase(fileName).value| == |fileName| - Count(fileName, '_')
  {
    PascalCaseByCharacter(fileName);
    PascalFromShape(fileName, true);
  }

  lemma DoubleUnderscoreCons(s: string)
    requires |s| >= 2
    ensures HasDoubleUnderscore(s) <==> (s[0] == '_' && s[1] == '_') || HasDoubleUnderscore(s[1..])
  {
    if HasDoubleUnderscore(s) {
      var i :| 0 <= i < |s| - 1 && s[i] == '_' && s[i + 1] == '_';
      if i > 0 {
        assert s[1..][i - 1] == '_' && s[1..][i] == '_';
      }
    }
    if HasDoubleUnderscore(s[1..]) {
      var i :| 0 <= i < |s| - 2 && s[1..][i] == '_' && s[1..][i + 1] == '_';
      assert s[i + 1] == '_' && s[i + 2] == '_';
    }
  }

  /** Some segment after the first is empty exactly when the name ends with '_' or
      holds "__". */
  lemma {:induction false} LaterSegmentEmpty(s: string)
    ensures "" in Split(s, '_')[1..] <==> (|s| > 0 && s[|s| - 1] == '_') || HasDoubleUnderscore(s)
  {
    if s != [] {
      var t := s[1..];
      LaterSegmentEmpty(t);
      if |s| >= 2 {
        DoubleUnderscoreCons(s);
        assert s[|s| - 1] == t[|t| - 1];
      } else {
        assert !HasDoubleUnderscore(s);
      }
      if s[0] == '_' {
        var rest := Split(t, '_');
        assert Split(s, '_')[1..] == rest;
        assert "" in rest <==> rest[0] == "" || "" in rest[1..] by {
          assert rest == [rest[0]] + rest[1..];
        }
      } else {
        assert Split(s, '_')[1..] == Split(t, '_')[1..];
      }
    }
  }

  /** The conversion fails exactly on an empty name, a leading or trailing '_', or "__". */
  lemma PascalCaseFailure(fileName: string)
    ensures PascalCase(fileName).Err?
        <==> || fileName == ""
             || fileName[0] == '_'
             || fileName[|fileName| - 1] == '_'
             || HasDoubleUnderscore(fileName)
  {
    var segments := Split(fileName, '_');
    LaterSegmentEmpty(fileName);
    assert segments == [segments[0]] + segments[1..];
    assert segments[0] == "" <==> fileName == "" || fileName[0] == '_';
  }
}
