/** parse_java_lang_name of parse_java_sig.cpp, against the mangling of JNI native method names. */
module Demangle {
  import opened Prelude
  import opened StrHelper

  /**
   * Outcome of parsing. An overloaded name comes with its signature, which split_args_sig would still split.
   * PastEnd stands for reading behind the end of the list of pieces, which C++ leaves undefined.
   */
  datatype Outcome =
    | Rejected
    | Plain(className: string, methodName: string)
    | Overloaded(className: string, methodName: string, args: string)
    | PastEnd

  // ---------- The parser as a function ----------

  /** std::string::find_last_of for one character. */
  function LastDot(s: string): (r: Option<nat>)
    ensures r == None <==> '.' !in s
    ensures r.Some? ==> r.value < |s| && s[r.value] == '.' && '.' !in s[r.value + 1..]
  {
    if s == [] then None
    else
      assert s == s[..|s| - 1] + [s[|s| - 1]];
      if s[|s| - 1] == '.' then Some(|s| - 1)
      else LastDot(s[..|s| - 1])
  }

  /** The name that an unescaped symbol stands for. */
  function Unescaped(api: string): string
  {
    Replaced(Replaced(api, "_", "."), ".1", "_")
  }

  function NameParts(name: string): Option<(string, string)>
  {
    match LastDot(name)
    case None => None
    case Some(end) => if end == 0 || end + 1 == |name| then None else Some((name[..end], name[end + 1..]))
  }

  function Parsed(langName: string): Outcome
  {
    if |langName| < 6 || !At(langName, "Java_", 0) then Rejected
    else
      var sys := langName[5..];
      var pieces := Split(sys, "__");
      if Contains(sys, "_0") || (|pieces| != 1 && |pieces| != 2) then Rejected
      else if Contains(sys, "__") && |pieces| == 1 then PastEnd
      else
        match NameParts(Unescaped(pieces[0]))
        case None => Rejected
        case Some((c, m)) =>
          if Contains(sys, "__") then Overloaded(c, m, Replaced(Replaced(pieces[1], "_2", ";"), "_3", "["))
          else Plain(c, m)
  }

  lemma JavaPrefix(s: string)
    ensures At(s, "Java_", 0) <==> |s| >= 5 && s[0] == 'J' && s[1] == 'a' && s[2] == 'v' && s[3] == 'a' && s[4] == '_'
  {
    if |s| >= 5 {
      assert s[0..5] == [s[0], s[1], s[2], s[3], s[4]];
    }
  }

  lemma OnePassHere()
    ensures OnePass("_", ".") && OnePass(".1", "_") && OnePass("_2", ";") && OnePass("_3", "[")
  {
  }

  /** parse_java_lang_name */
  method ParseJavaLangName(langName: string) returns (r: Outcome)
    ensures r == Parsed(langName)
  {
    hide Replaced, Split, Find, At, NoneWithin, NothingShared, OnePass;
    JavaPrefix(langName);
    OnePassHere();
    if |langName| < 6
       || !(&& langName[0] == 'J' && langName[1] == 'a' && langName[2] == 'v' && langName[3] == 'a'
            && langName[4] == '_') {
      return Rejected;
    }
    var sys := langName[5..];
    if Contains(sys, "_0") {
      return Rejected;
    }
    var pieces := StringSplit(sys, "__");
    if |pieces| != 1 && |pieces| != 2 {
      return Rejected;
    }
    var isOverride := Contains(sys, "__");
    if !isOverride {
      pieces := pieces + [""];
    }
    if |pieces| == 1 {
      return PastEnd;
    }
    var api, args := pieces[0], pieces[1];
    api := ReplaceAll(api, "_", ".");
    api := ReplaceAll(api, ".1", "_");
    var last := LastDot(api);
    if last == None {
      return Rejected;
    }
    var className, methodName := api[..last.value], api[last.value + 1..];
    if className == "" || methodName == "" {
      return Rejected;
    }
    if !isOverride {
      return Plain(className, methodName);
    }
    args := ReplaceAll(args, "_2", ";");
    args := ReplaceAll(args, "_3", "[");
    r := Overloaded(className, methodName, args);
  }

  // ---------- Mangling ----------

  /**
   * Characters of a name whose mangling is a character or a digit escape: ASCII letters, digits, underscore; and
   * the dot.
   */
  predicate NameChar(c: char)
  {
    'a' <= c <= 'z' || 'A' <= c <= 'Z' || '0' <= c <= '9' || c == '_' || c == '.'
  }

  function Mangled(name: string): string
  {
    if name == [] then []
    else (if name[0] == '.' then "_" else if name[0] == '_' then "_1" else [name[0]]) + Mangled(name[1..])
  }

  /** c is followed by d somewhere in s. */
  ghost predicate Adjacent(s: string, c: char, d: char)
  {
    exists i | 0 <= i < |s| - 1 :: s[i] == c && s[i + 1] == d
  }

  /** No segment after the first starts with '0', '1' or an underscore, or is empty. */
  ghost predicate Safe(name: string)
  {
    !Adjacent(name, '.', '0') && !Adjacent(name, '.', '1') && !Adjacent(name, '.', '_') && !Adjacent(name, '.', '.')
  }

  // ---------- What unescaping does to a mangled name ----------

  lemma At1(s: string, c: char)
    ensures At(s, [c], 0) <==> s != [] && s[0] == c
  {
    if s != [] { assert s[0..1] == [s[0]]; }
  }

  lemma At2(s: string, c: char, d: char)
    ensures At(s, [c, d], 0) <==> |s| > 1 && s[0] == c && s[1] == d
  {
    if |s| > 1 { assert s[0..2] == [s[0], s[1]]; }
  }

  /** The first pass of unescaping, on a mangled name: every underscore is a dot again, or starts a ".1". */
  function Dotted(name: string): string
  {
    if name == [] then []
    else (if name[0] == '_' then ".1" else [name[0]]) + Dotted(name[1..])
  }

  lemma {:induction false} FirstPass(name: string)
    ensures Replaced(Mangled(name), "_", ".") == Dotted(name)
  {
    if name != [] {
      var rest := Mangled(name[1..]);
      FirstPass(name[1..]);
      var m := Mangled(name);
      At1(m, '_');
      if name[0] == '_' {
        assert m == "_1" + rest && m[1..] == "1" + rest;
        At1(m[1..], '_');
        assert m[1..][1..] == rest;
        assert Replaced(m[1..], "_", ".") == "1" + Dotted(name[1..]);
        assert "." + ("1" + Dotted(name[1..])) == ".1" + Dotted(name[1..]);
      } else {
        assert m[1..] == rest;
      }
    }
  }

  /** The second pass gives the name back, but that a ".1" in it is lost. */
  lemma {:induction false} SecondPass(name: string)
    ensures Replaced(Dotted(name), ".1", "_") == Replaced(name, ".1", "_")
    decreases |name|
  {
    if name != [] {
      var d, rest := Dotted(name), Dotted(name[1..]);
      SecondPass(name[1..]);
      At2(d, '.', '1');
      At2(name, '.', '1');
      if name[0] == '_' {
        assert d[2..] == rest;
      } else {
        assert d[1..] == rest;
        if name[0] == '.' && |name| > 1 && name[1] == '1' {
          var tail := Dotted(name[2..]);
          SecondPass(name[2..]);
          assert name[1..][1..] == name[2..];
          assert rest == "1" + tail;
          assert d[2..] == tail;
        } else if name[0] == '.' && |name| > 1 {
          assert rest[0] != '1';
        }
      }
    }
  }

  lemma AdjacentStep(s: string, c: char, d: char)
    ensures Adjacent(s, c, d) <==> |s| > 1 && ((s[0] == c && s[1] == d) || Adjacent(s[1..], c, d))
  {
    if |s| > 1 {
      var t := s[1..];
      if i :| 0 <= i < |s| - 1 && s[i] == c && s[i + 1] == d {
        if i > 0 { assert t[i - 1] == c && t[i - 1 + 1] == d; }
      }
      if i :| 0 <= i < |t| - 1 && t[i] == c && t[i + 1] == d {
        assert s[i + 1] == c && s[i + 1 + 1] == d;
      }
    }
  }

  lemma AdjacentContained(s: string, c: char, d: char)
    ensures Contains(s, [c, d]) <==> Adjacent(s, c, d)
  {
    var p := [c, d];
    match Find(s, p, 0)
    case Some(k) =>
      assert s[k] == s[k..k + 2][0] && s[k + 1] == s[k..k + 2][1];
    case None =>
      if i :| 0 <= i < |s| - 1 && s[i] == c && s[i + 1] == d {
        assert s[i..i + 2] == p;
        assert At(s, p, i);
      }
  }

  /** What follows an underscore of a mangled name. */
  lemma {:induction false} MangledPairs(name: string)
    ensures Adjacent(Mangled(name), '_', '0') <==> Adjacent(name, '.', '0')
    ensures Adjacent(Mangled(name), '_', '_') <==> Adjacent(name, '.', '.') || Adjacent(name, '.', '_')
  {
    hide Adjacent;
    var m := Mangled(name);
    AdjacentStep(m, '_', '0');
    AdjacentStep(m, '_', '_');
    AdjacentStep(name, '.', '0');
    AdjacentStep(name, '.', '.');
    AdjacentStep(name, '.', '_');
    if name != [] {
      var rest := Mangled(name[1..]);
      MangledPairs(name[1..]);
      if name[0] == '_' {
        assert m == ['_', '1'] + rest && m[1..] == ['1'] + rest && m[1..][1..] == rest;
        AdjacentStep(m[1..], '_', '0');
        AdjacentStep(m[1..], '_', '_');
        AdjacentStep(rest, '_', '0');
        AdjacentStep(rest, '_', '_');
      } else {
        assert m[1..] == rest;
        MangledFront(name[1..]);
      }
    }
  }

  lemma MangledFront(name: string)
    ensures Mangled(name) == [] <==> name == []
    ensures name != [] ==> Mangled(name)[0] == if name[0] == '.' then '_' else name[0]
  {
  }

  /** Replacing ".1" changes a name exactly when it holds one. */
  lemma {:induction false} ReplacedShrinks(name: string)
    ensures |Replaced(name, ".1", "_")| <= |name|
    ensures if Adjacent(name, '.', '1') then |Replaced(name, ".1", "_")| < |name| else Replaced(name, ".1", "_") == name
    decreases |name|
  {
    hide Adjacent;
    AdjacentStep(name, '.', '1');
    if name != [] {
      At2(name, '.', '1');
      if At(name, ".1", 0) {
        ReplacedShrinks(name[2..]);
      } else {
        ReplacedShrinks(name[1..]);
        assert name == [name[0]] + name[1..];
      }
    }
  }

  lemma {:induction false} MangledEnd(name: string)
    requires name != [] && name[|name| - 1] != '.'
    ensures var m := Mangled(name); m != [] && m[|m| - 1] != '_'
  {
    if |name| > 1 {
      MangledEnd(name[1..]);
    }
  }

  // ---------- Demangling undoes mangling ----------

  lemma UnescapeMangled(name: string)
    ensures Unescaped(Mangled(name)) == Replaced(name, ".1", "_")
  {
    FirstPass(name);
    SecondPass(name);
  }

  lemma PartsOfName(c: string, m: string)
    requires c != "" && m != "" && '.' !in m
    ensures NameParts(c + "." + m) == Some((c, m))
  {
    var s := c + "." + m;
    var k := |c|;
    assert s[k] == '.' && s[k + 1..] == m && s[..k] == c;
    var end := LastDot(s).value;
    assert '.' !in s[k + 1..] && '.' !in s[end + 1..];
  }

  lemma PartsMakeName(s: string)
    requires NameParts(s).Some?
    ensures var (c, m) := NameParts(s).value; s == c + "." + m
  {
    var end := LastDot(s).value;
    assert s == s[..end] + [s[end]] + s[end + 1..];
  }

  lemma SplitNone(sys: string)
    requires sys != [] && !Contains(sys, "__")
    ensures Split(sys, "__") == [sys]
  {
    assert sys[0..] == sys;
  }

  /** The symbol has one piece although it holds "__": the first "__" ends it. */
  lemma OnePieceTrailing(sys: string)
    ensures Contains(sys, "__") && |Split(sys, "__")| == 1
        <==> |sys| >= 2 && At(sys, "__", |sys| - 2) && NoneWithin(sys, "__", 0, |sys| - 2)
  {
    hide At;
    match Find(sys, "__", 0)
    case None =>
      if |sys| >= 2 {
        assert !At(sys, "__", |sys| - 2);
      }
    case Some(pos) =>
      assert Split(sys, "__") == [sys[0..pos]] + Pieces(sys, "__", pos + 2);
      assert pos + 2 < |sys| ==> Pieces(sys, "__", pos + 2) != [];
  }

  /**
   * The program reads behind the end of its list of pieces exactly on symbols that hold no "_0" and whose only "__"
   * is at the end.
   */
  lemma WhenPastEnd(langName: string)
    ensures Parsed(langName) == PastEnd <==>
            && |langName| >= 7 && At(langName, "Java_", 0)
            && var sys := langName[5..];
               !Contains(sys, "_0") && At(sys, "__", |sys| - 2) && NoneWithin(sys, "__", 0, |sys| - 2)
  {
    hide Split, Find, Contains, At, NoneWithin, Unescaped, NameParts;
    if |langName| >= 6 {
      OnePieceTrailing(langName[5..]);
    }
  }

  /** A symbol on which it does. */
  lemma PastEndExample()
    ensures Parsed("Java_a_b__") == PastEnd
  {
    var langName := "Java_a_b__";
    var sys := langName[5..];
    assert sys == "a_b__" && langName[..5] == "Java_" && sys[3..5] == "__";
    forall j | 0 <= j < 3
      ensures !At(sys, "__", j)
    {
      assert |sys[j..j + 2]| == 2 && sys[j..j + 2][0] == sys[j] && sys[j..j + 2][1] == sys[j + 1];
      assert sys[j] != '_' || sys[j + 1] != '_';
    }
    AdjacentContained(sys, '_', '0');
    assert "_0" == ['_', '0'];
    WhenPastEnd(langName);
  }

  /** A symbol that does not end in an underscore is cut in two at its first "__". */
  lemma ParsableUnlessTrailing(sys: string)
    requires sys != [] && sys[|sys| - 1] != '_'
    ensures Contains(sys, "__") ==> |Split(sys, "__")| > 1
  {
    if Contains(sys, "__") {
      var pos := Find(sys, "__", 0).value;
      assert sys[pos + 1] == sys[pos..pos + 2][1];
      assert Pieces(sys, "__", pos + 2) != [];
    }
  }

  /** Demangling a mangled name gives the class and the method back exactly when the name is safe. */
  lemma DemangleUndoesMangle(c: string, m: string)
    requires c != "" && m != "" && '.' !in m && (forall x <- c + m :: NameChar(x))
    ensures var symbol := "Java_" + Mangled(c + "." + m);
      Parsed(symbol) == Plain(c, m) <==> Safe(c + "." + m)
  {
    hide Adjacent, Replaced, Split, Find, NameParts;
    var name := c + "." + m;
    var sys := Mangled(name);
    var symbol := "Java_" + sys;
    MangledFront(name);
    assert symbol[5..] == sys && At(symbol, "Java_", 0);
    assert name[|name| - 1] == m[|m| - 1];
    MangledEnd(name);
    ParsableUnlessTrailing(sys);
    MangledPairs(name);
    AdjacentContained(sys, '_', '0');
    AdjacentContained(sys, '_', '_');
    assert "__" == ['_', '_'] && "_0" == ['_', '0'];
    UnescapeMangled(name);
    ReplacedShrinks(name);
    PartsOfName(c, m);
    if !Contains(sys, "__") {
      assert sys[0..] == sys;
      assert Split(sys, "__") == [sys] by { SplitNone(sys); }
      if Parsed(symbol) == Plain(c, m) {
        PartsMakeName(Unescaped(sys));
      }
    }
  }

  /** A method whose name starts with an underscore is not found again. */
  lemma UnderscoreLost()
    ensures Parsed("Java_" + Mangled("a._b")) != Plain("a", "_b")
  {
    var name := "a" + "." + "_b";
    assert name == "a._b" && name[1] == '.' && name[1 + 1] == '_';
    DemangleUndoesMangle("a", "_b");
  }

  // ---------- Overloaded methods ----------

  /** Characters of a signature: ASCII letters and digits, and the marks of classes and arrays. */
  predicate SigChar(c: char)
  {
    'a' <= c <= 'z' || 'A' <= c <= 'Z' || '0' <= c <= '9' || c == '/' || c == ';' || c == '['
  }

  /** How JNI writes the argument signature of an overloaded method behind two underscores. */
  function MangledSig(sig: string): string
  {
    if sig == [] then []
    else
      (if sig[0] == '/' then "_" else if sig[0] == ';' then "_2" else if sig[0] == '[' then "_3" else [sig[0]])
      + MangledSig(sig[1..])
  }

  /** The signature as the program holds it: with underscores for slashes. */
  function Underscored(sig: string): string
  {
    if sig == [] then [] else (if sig[0] == '/' then "_" else [sig[0]]) + Underscored(sig[1..])
  }

  /** After the first replacement: arrays are still to be decoded. */
  function HalfDecoded(sig: string): string
  {
    if sig == [] then []
    else (if sig[0] == '/' then "_" else if sig[0] == '[' then "_3" else [sig[0]]) + HalfDecoded(sig[1..])
  }

  /** No slash stands before a digit or mark with which it would be taken for something else. */
  ghost predicate SafeSig(sig: string)
  {
    && sig != [] && sig[0] != '0'
    && !Adjacent(sig, '/', '0') && !Adjacent(sig, '/', '2') && !Adjacent(sig, '/', '3')
    && !Adjacent(sig, '/', '/') && !Adjacent(sig, '/', ';') && !Adjacent(sig, '/', '[')
  }

  lemma SigFront(sig: string)
    ensures MangledSig(sig) == [] <==> sig == []
    ensures sig != [] ==>
              MangledSig(sig)[0] == if sig[0] == '/' || sig[0] == ';' || sig[0] == '[' then '_' else sig[0]
  {
  }

  lemma {:induction false} SigPairs(sig: string)
    requires forall x <- sig :: SigChar(x)
    ensures Adjacent(MangledSig(sig), '_', '0') <==> Adjacent(sig, '/', '0')
    ensures Adjacent(MangledSig(sig), '_', '_') <==>
            Adjacent(sig, '/', '/') || Adjacent(sig, '/', ';') || Adjacent(sig, '/', '[')
  {
    hide Adjacent;
    var b := MangledSig(sig);
    AdjacentStep(b, '_', '0');
    AdjacentStep(b, '_', '_');
    AdjacentStep(sig, '/', '0');
    AdjacentStep(sig, '/', '/');
    AdjacentStep(sig, '/', ';');
    AdjacentStep(sig, '/', '[');
    if sig != [] {
      assert sig[0] in sig && forall x <- sig[1..] :: x in sig;
      assert |sig| > 1 ==> sig[1] in sig;
      var rest := MangledSig(sig[1..]);
      SigPairs(sig[1..]);
      SigFront(sig[1..]);
      if sig[0] == ';' || sig[0] == '[' {
        var d := if sig[0] == ';' then '2' else '3';
        assert b == ['_', d] + rest && b[1..] == [d] + rest && b[1..][1..] == rest;
        AdjacentStep(b[1..], '_', '0');
        AdjacentStep(b[1..], '_', '_');
        AdjacentStep(rest, '_', '0');
        AdjacentStep(rest, '_', '_');
      } else {
        assert b[1..] == rest;
      }
    }
  }

  lemma {:induction false} ClassesDecoded(sig: string)
    requires !Adjacent(sig, '/', '2') && forall x <- sig :: SigChar(x)
    ensures Replaced(MangledSig(sig), "_2", ";") == HalfDecoded(sig)
  {
    hide Adjacent;
    AdjacentStep(sig, '/', '2');
    if sig != [] {
      assert sig[0] in sig && forall x <- sig[1..] :: x in sig;
      var b, rest := MangledSig(sig), MangledSig(sig[1..]);
      AdjacentStep(sig[1..], '/', '2');
      ClassesDecoded(sig[1..]);
      SigFront(sig[1..]);
      At2(b, '_', '2');
      if sig[0] == ';' {
        assert b[2..] == rest;
      } else if sig[0] == '[' {
        ThreeKept(rest);
        assert b == "_3" + rest;
      } else {
        assert b[1..] == rest;
      }
    }
  }

  /** What stands for an opening bracket is left alone by the first replacement. */
  lemma ThreeKept(rest: string)
    ensures Replaced("_3" + rest, "_2", ";") == "_3" + Replaced(rest, "_2", ";")
  {
    var b := "_3" + rest;
    At2(b, '_', '2');
    At2(b[1..], '_', '2');
    assert b[1..] == "3" + rest && b[1..][1..] == rest;
    assert "_" + ("3" + Replaced(rest, "_2", ";")) == "_3" + Replaced(rest, "_2", ";");
  }

  lemma {:induction false} ArraysDecoded(sig: string)
    requires !Adjacent(sig, '/', '3') && forall x <- sig :: SigChar(x)
    ensures Replaced(HalfDecoded(sig), "_3", "[") == Underscored(sig)
  {
    hide Adjacent;
    AdjacentStep(sig, '/', '3');
    if sig != [] {
      assert sig[0] in sig && forall x <- sig[1..] :: x in sig;
      assert |sig| > 1 ==> sig[1] in sig;
      var b, rest := HalfDecoded(sig), HalfDecoded(sig[1..]);
      AdjacentStep(sig[1..], '/', '3');
      ArraysDecoded(sig[1..]);
      assert |sig| > 1 ==> rest[0] == if sig[1] == '/' || sig[1] == '[' then '_' else sig[1];
      assert |sig| == 1 ==> rest == [];
      At2(b, '_', '3');
      if sig[0] == '[' {
        assert b[2..] == rest;
      } else {
        assert b[1..] == rest;
      }
    }
  }

  /** Where two texts meet, their ends make one pair more. */
  lemma {:induction false} AdjacentConcat(a: string, b: string, c: char, d: char)
    requires a != [] && b != []
    ensures Adjacent(a + b, c, d) <==>
            Adjacent(a, c, d) || (a[|a| - 1] == c && b[0] == d) || Adjacent(b, c, d)
  {
    hide Adjacent;
    AdjacentStep(a + b, c, d);
    AdjacentStep(a, c, d);
    assert (a + b)[1..] == a[1..] + b;
    if |a| > 1 {
      AdjacentConcat(a[1..], b, c, d);
    } else {
      assert a[1..] + b == b;
    }
  }

  /** The first "__" of a symbol is the one behind its name. */
  lemma NameEnds(a: string, b: string)
    requires a != [] && a[|a| - 1] != '_' && !Adjacent(a, '_', '_')
    ensures NoneWithin(a + "__" + b, "__", 0, |a|)
  {
    var s := a + "__" + b;
    forall j | 0 <= j < |a|
      ensures !At(s, "__", j)
    {
      assert |s| >= j + 2;
      assert s[j..j + 2][0] == s[j] && s[j..j + 2][1] == s[j + 1];
      assert s[j] == a[j] && (j + 1 < |a| ==> s[j + 1] == a[j + 1]);
    }
  }

  /** The symbol of an overloaded method gives its class, its name and its signature, with underscores for slashes. */
  lemma OverloadedBack(c: string, m: string, sig: string)
    requires c != "" && m != "" && '.' !in m && (forall x <- c + m :: NameChar(x)) && Safe(c + "." + m)
    requires SafeSig(sig) && forall x <- sig :: SigChar(x)
    ensures Parsed("Java_" + Mangled(c + "." + m) + "__" + MangledSig(sig)) == Overloaded(c, m, Underscored(sig))
  {
    hide Adjacent, Replaced, Split, Find, NameParts, NoneWithin, Mangled, MangledSig, Underscored;
    var name := c + "." + m;
    var a, b := Mangled(name), MangledSig(sig);
    var sys := a + "__" + b;
    var symbol := "Java_" + a + "__" + b;
    assert symbol[5..] == sys && At(symbol, "Java_", 0);
    MangledFront(name);
    SigFront(sig);
    assert name[|name| - 1] == m[|m| - 1];
    MangledEnd(name);
    MangledPairs(name);
    SigPairs(sig);
    NoZero(a, b);
    NameEnds(a, b);
    SplitFirst(a, "__", b);
    AdjacentContained(b, '_', '_');
    assert "__" == ['_', '_'] && "_0" == ['_', '0'];
    assert !Contains(b, "__");
    assert Split(b, "__") == [b] by { SplitNone(b); }
    AdjacentContained(sys, '_', '0');
    AdjacentContained(sys, '_', '_');
    UnescapeMangled(name);
    ReplacedShrinks(name);
    PartsOfName(c, m);
    ClassesDecoded(sig);
    ArraysDecoded(sig);
  }

  lemma NoZero(a: string, b: string)
    requires a != [] && b != [] && a[|a| - 1] != '_' && !Adjacent(a, '_', '0') && !Adjacent(b, '_', '0') && b[0] != '0'
    ensures var s := a + "__" + b; !Adjacent(s, '_', '0') && Adjacent(s, '_', '_')
  {
    hide Adjacent;
    var s := a + "__" + b;
    AdjacentConcat(a, "__", '_', '0');
    AdjacentConcat(a + "__", b, '_', '0');
    AdjacentConcat(a, "__", '_', '_');
    AdjacentConcat(a + "__", b, '_', '_');
    AdjacentStep("__", '_', '0');
    AdjacentStep("__", '_', '_');
    assert "__"[1..] == "_";
    AdjacentStep("_", '_', '0');
  }
}
