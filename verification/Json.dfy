/** JSON values and a parser after RFC 8259, sections 2 to 7. Strings with escape sequences are
    outside the parser's range; everything it accepts is grammatical. */
module Json {

  datatype Value =
    | Null
    | Bool(b: bool)
    | Num(text: string)
    | Str(s: string)
    | Arr(items: seq<Value>)
    | Obj(members: seq<(string, Value)>)

  datatype Parse<+T> = NoParse | Parse(value: T, next: nat)

  // --- lexical structure ---------------------------------------------------------------

  predicate IsSpace(c: char) {
    c == ' ' || c == '\t' || c == '\n' || c == '\r'
  }

  predicate IsDigit(c: char) {
    '0' <= c <= '9'
  }

  /** A character that can stand in a string as it is. */
  predicate IsUnescaped(c: char) {
    c >= ' ' && c != '"' && c != '\\'
  }

  function SkipSpace(s: string, i: nat): (j: nat)
    requires i <= |s|
    ensures i <= j <= |s|
    decreases |s| - i
  {
    if i < |s| && IsSpace(s[i]) then SkipSpace(s, i + 1) else i
  }

  function SkipDigits(s: string, i: nat): (j: nat)
    requires i <= |s|
    ensures i <= j <= |s|
    decreases |s| - i
  {
    if i < |s| && IsDigit(s[i]) then SkipDigits(s, i + 1) else i
  }

  function SkipChar(s: string, i: nat, c: char): (j: nat)
    requires i <= |s|
    ensures i <= j <= |s|
  {
    if i < |s| && s[i] == c then i + 1 else i
  }

  /** int = zero / ( digit1-9 *DIGIT ); the result is `i` when there is none. */
  function IntEnd(s: string, i: nat): (j: nat)
    requires i <= |s|
    ensures i <= j <= |s|
  {
    if i < |s| && s[i] == '0' then i + 1 else SkipDigits(s, i)
  }

  /** [ frac ]; a point without digits is no fraction. */
  function FracEnd(s: string, i: nat): (j: nat)
    requires i <= |s|
    ensures i <= j <= |s|
  {
    if i < |s| && s[i] == '.' && SkipDigits(s, i + 1) > i + 1 then SkipDigits(s, i + 1) else i
  }

  /** [ exp ] */
  function ExpEnd(s: string, i: nat): (j: nat)
    requires i <= |s|
    ensures i <= j <= |s|
  {
    if i < |s| && (s[i] == 'e' || s[i] == 'E') then
      var k := if i + 1 < |s| && (s[i + 1] == '+' || s[i + 1] == '-') then i + 2 else i + 1;
      if SkipDigits(s, k) > k then SkipDigits(s, k) else i
    else i
  }

  /** number = [ minus ] int [ frac ] [ exp ]; the result is `i` when there is none. */
  function NumberEnd(s: string, i: nat): (j: nat)
    requires i <= |s|
    ensures i <= j <= |s|
  {
    var k := SkipChar(s, i, '-');
    var n := IntEnd(s, k);
    if n == k then i else ExpEnd(s, FracEnd(s, n))
  }

  predicate IsNumber(t: string) {
    t != [] && NumberEnd(t, 0) == |t|
  }

  predicate IsClean(t: string) {
    forall i :: 0 <= i < |t| ==> IsUnescaped(t[i])
  }

  function CleanEnd(s: string, i: nat): (j: nat)
    requires i <= |s|
    ensures i <= j <= |s|
    ensures forall k :: i <= k < j ==> IsUnescaped(s[k])
    decreases |s| - i
  {
    if i < |s| && IsUnescaped(s[i]) then CleanEnd(s, i + 1) else i
  }

  /** quotation-mark *unescaped quotation-mark */
  function ParseString(s: string, i: nat): (p: Parse<string>)
    requires i <= |s|
    ensures p.Parse? ==> i < p.next <= |s|
  {
    if i < |s| && s[i] == '"' then
      var j := CleanEnd(s, i + 1);
      if j < |s| && s[j] == '"' then Parse(s[i + 1..j], j + 1) else NoParse
    else NoParse
  }

  function ParseWord(s: string, i: nat, word: string, v: Value): (p: Parse<Value>)
    requires i <= |s| && word != []
    ensures p.Parse? ==> i < p.next <= |s|
  {
    if i + |word| <= |s| && s[i..i + |word|] == word then Parse(v, i + |word|) else NoParse
  }

  // --- values ------------------------------------------------------------------------------

  function ParseValue(s: string, start: nat): (p: Parse<Value>)
    requires start <= |s|
    ensures p.Parse? ==> start < p.next <= |s|
    decreases |s| - start, 0
  {
    var i := SkipSpace(s, start);
    if i == |s| then NoParse
    else if s[i] == '"' then
      var p := ParseString(s, i);
      if p.Parse? then Parse(Str(p.value), p.next) else NoParse
    else if s[i] == '[' then
      var j := SkipSpace(s, i + 1);
      if j < |s| && s[j] == ']' then Parse(Arr([]), j + 1)
      else
        var p := ParseItems(s, i + 1);
        if p.Parse? then Parse(Arr(p.value), p.next) else NoParse
    else if s[i] == '{' then
      var j := SkipSpace(s, i + 1);
      if j < |s| && s[j] == '}' then Parse(Obj([]), j + 1)
      else
        var p := ParseMembers(s, i + 1);
        if p.Parse? then Parse(Obj(p.value), p.next) else NoParse
    else if s[i] == 'n' then ParseWord(s, i, "null", Null)
    else if s[i] == 't' then ParseWord(s, i, "true", Bool(true))
    else if s[i] == 'f' then ParseWord(s, i, "false", Bool(false))
    else if NumberEnd(s, i) > i then Parse(Num(s[i..NumberEnd(s, i)]), NumberEnd(s, i))
    else NoParse
  }

  /** value *( value-separator value ) end-array */
  function ParseItems(s: string, i: nat): (p: Parse<seq<Value>>)
    requires i <= |s|
    ensures p.Parse? ==> i < p.next <= |s|
    decreases |s| - i, 1
  {
    var v := ParseValue(s, i);
    if v.NoParse? then NoParse
    else
      var k := SkipSpace(s, v.next);
      if k == |s| then NoParse
      else if s[k] == ']' then Parse([v.value], k + 1)
      else if s[k] == ',' then
        var rest := ParseItems(s, k + 1);
        if rest.Parse? then Parse([v.value] + rest.value, rest.next) else NoParse
      else NoParse
  }

  /** member *( value-separator member ) end-object, member = string name-separator value */
  function ParseMembers(s: string, start: nat): (p: Parse<seq<(string, Value)>>)
    requires start <= |s|
    ensures p.Parse? ==> start < p.next <= |s|
    decreases |s| - start, 1
  {
    var name := ParseString(s, SkipSpace(s, start));
    if name.NoParse? then NoParse
    else
      var c := SkipSpace(s, name.next);
      if c == |s| || s[c] != ':' then NoParse
      else
        var v := ParseValue(s, c + 1);
        if v.NoParse? then NoParse
        else
          var k := SkipSpace(s, v.next);
          if k == |s| then NoParse
          else if s[k] == '}' then Parse([(name.value, v.value)], k + 1)
          else if s[k] == ',' then
            var rest := ParseMembers(s, k + 1);
            if rest.Parse? then Parse([(name.value, v.value)] + rest.value, rest.next) else NoParse
          else NoParse
  }

  /** JSON-text = ws value ws */
  function ParseText(s: string): Parse<Value> {
    var v := ParseValue(s, 0);
    if v.Parse? && SkipSpace(s, v.next) == |s| then v else NoParse
  }

  // --- compact text ---------------------------------------------------------------------------

  /** What can be printed without escapes. */
  ghost predicate Printable(v: Value) {
    match v
    case Null => true
    case Bool(_) => true
    case Num(text) => IsNumber(text)
    case Str(s) => IsClean(s)
    case Arr(items) => forall i :: 0 <= i < |items| ==> Printable(items[i])
    case Obj(members) => forall i :: 0 <= i < |members| ==> IsClean(members[i].0) && Printable(members[i].1)
  }

  function Quoted(s: string): string {
    "\"" + s + "\""
  }

  function Text(v: Value): string
    decreases v, 0
  {
    match v
    case Null => "null"
    case Bool(b) => if b then "true" else "false"
    case Num(text) => text
    case Str(s) => Quoted(s)
    case Arr(items) => "[" + ItemsText(items) + "]"
    case Obj(members) => "{" + MembersText(members) + "}"
  }

  function ItemsText(items: seq<Value>): string
    decreases items, 1
  {
    if items == [] then ""
    else if |items| == 1 then Text(items[0])
    else Text(items[0]) + "," + ItemsText(items[1..])
  }

  function MemberText(m: (string, Value)): string
    decreases m, 1
  {
    Quoted(m.0) + ":" + Text(m.1)
  }

  function MembersText(members: seq<(string, Value)>): string
    decreases members, 2
  {
    if members == [] then ""
    else if |members| == 1 then MemberText(members[0])
    else MemberText(members[0]) + "," + MembersText(members[1..])
  }

  // --- the parser undoes the text ------------------------------------------------------------------

  predicate Here(s: string, i: nat, x: string) {
    i + |x| <= |s| && s[i..i + |x|] == x
  }

  lemma HereConcat(s: string, i: nat, x: string, y: string)
    ensures Here(s, i, x + y) <==> Here(s, i, x) && Here(s, i + |x|, y)
  {
    if Here(s, i, x + y) {
      assert s[i..i + |x|] == s[i..i + |x + y|][..|x|] == x;
      assert s[i + |x|..i + |x| + |y|] == s[i..i + |x + y|][|x|..] == y;
    }
    if Here(s, i, x) && Here(s, i + |x|, y) {
      assert s[i..i + |x + y|] == s[i..i + |x|] + s[i + |x|..i + |x| + |y|];
    }
  }

  lemma HereAt(s: string, i: nat, x: string, k: nat)
    requires Here(s, i, x) && k < |x|
    ensures i + |x| <= |s| && s[i + k] == x[k]
  {
  }

  /** Nothing that could continue a number stands at `i`. */
  predicate Ends(s: string, i: nat) {
    i == |s| || (i < |s| && !IsDigit(s[i]) && s[i] !in {'.', 'e', 'E', '+', '-'})
  }

  lemma {:induction false} DigitsInContext(s: string, o: nat, t: string, i: nat)
    requires Here(s, o, t) && Ends(s, o + |t|) && i <= |t|
    ensures SkipDigits(s, o + i) == o + SkipDigits(t, i)
    decreases |t| - i
  {
    if i < |t| {
      HereAt(s, o, t, i);
      if IsDigit(t[i]) {
        DigitsInContext(s, o, t, i + 1);
      }
    }
  }

  lemma NumberInContext(s: string, o: nat, t: string)
    requires Here(s, o, t) && Ends(s, o + |t|) && IsNumber(t)
    ensures NumberEnd(s, o) == o + |t|
  {
    hide Here;
    HereAt(s, o, t, 0);
    var k := SkipChar(t, 0, '-');
    if k < |t| {
      HereAt(s, o, t, k);
    }
    DigitsInContext(s, o, t, k);
    var n := IntEnd(t, k);
    assert IntEnd(s, o + k) == o + n;
    FracInContext(s, o, t, n);
    ExpInContext(s, o, t, FracEnd(t, n));
  }

  lemma FracInContext(s: string, o: nat, t: string, i: nat)
    requires Here(s, o, t) && Ends(s, o + |t|) && i <= |t|
    ensures FracEnd(s, o + i) == o + FracEnd(t, i)
  {
    if i < |t| {
      HereAt(s, o, t, i);
      DigitsInContext(s, o, t, i + 1);
    }
  }

  lemma ExpInContext(s: string, o: nat, t: string, i: nat)
    requires Here(s, o, t) && Ends(s, o + |t|) && i <= |t|
    ensures ExpEnd(s, o + i) == o + ExpEnd(t, i)
  {
    if i < |t| {
      HereAt(s, o, t, i);
      if i + 1 < |t| {
        HereAt(s, o, t, i + 1);
        if i + 2 <= |t| {
          DigitsInContext(s, o, t, i + 2);
        }
      }
      DigitsInContext(s, o, t, i + 1);
    }
  }

  lemma {:induction false} CleanInContext(s: string, o: nat, t: string, i: nat)
    requires Here(s, o, t) && IsClean(t) && i <= |t|
    requires o + |t| < |s| && s[o + |t|] == '"'
    ensures CleanEnd(s, o + i) == o + |t|
    decreases |t| - i
  {
    if i < |t| {
      HereAt(s, o, t, i);
      CleanInContext(s, o, t, i + 1);
    }
  }

  lemma StringParses(s: string, i: nat, t: string)
    requires Here(s, i, Quoted(t)) && IsClean(t)
    ensures ParseString(s, i) == Parse(t, i + |Quoted(t)|)
    ensures s[i] == '"'
  {
    HereConcat(s, i, "\"" + t, "\"");
    HereConcat(s, i, "\"", t);
    CleanInContext(s, i + 1, t, 0);
  }

  lemma SkipNothing(s: string, i: nat)
    requires i < |s| && !IsSpace(s[i])
    ensures SkipSpace(s, i) == i
  {
  }

  lemma NumberStart(t: string)
    requires IsNumber(t)
    ensures t[0] == '-' || IsDigit(t[0])
  {
  }

  /** The text of a value starts with a character that tells its kind. */
  lemma TextStart(v: Value)
    requires Printable(v)
    ensures Text(v) != [] && !IsSpace(Text(v)[0]) && Text(v)[0] != ']' && Text(v)[0] != '}'
  {
    if v.Num? {
      NumberStart(v.text);
    }
  }

  lemma ArrayStep(s: string, i: nat)
    requires i + 1 < |s| && s[i] == '[' && !IsSpace(s[i + 1])
    ensures var p := ParseItems(s, i + 1);
      ParseValue(s, i) == if s[i + 1] == ']' then Parse(Arr([]), i + 2)
                          else if p.Parse? then Parse(Arr(p.value), p.next) else NoParse
  {
    hide ParseItems;
    SkipNothing(s, i);
    SkipNothing(s, i + 1);
  }

  lemma ObjectStep(s: string, i: nat)
    requires i + 1 < |s| && s[i] == '{' && !IsSpace(s[i + 1])
    ensures var p := ParseMembers(s, i + 1);
      ParseValue(s, i) == if s[i + 1] == '}' then Parse(Obj([]), i + 2)
                          else if p.Parse? then Parse(Obj(p.value), p.next) else NoParse
  {
    hide ParseMembers;
    SkipNothing(s, i);
    SkipNothing(s, i + 1);
  }

  lemma ItemsStep(s: string, i: nat, v: Value, j: nat)
    requires i <= |s| && ParseValue(s, i) == Parse(v, j) && j < |s| && !IsSpace(s[j])
    ensures s[j] == ']' ==> ParseItems(s, i) == Parse([v], j + 1)
    ensures s[j] == ',' && ParseItems(s, j + 1).Parse? ==>
      ParseItems(s, i) == Parse([v] + ParseItems(s, j + 1).value, ParseItems(s, j + 1).next)
  {
    hide ParseValue;
    SkipNothing(s, j);
  }

  lemma MembersStep(s: string, i: nat, name: string, c: nat, v: Value, j: nat)
    requires i < |s| && !IsSpace(s[i]) && ParseString(s, i) == Parse(name, c)
    requires c < |s| && s[c] == ':' && ParseValue(s, c + 1) == Parse(v, j) && j < |s| && !IsSpace(s[j])
    ensures s[j] == '}' ==> ParseMembers(s, i) == Parse([(name, v)], j + 1)
    ensures s[j] == ',' && ParseMembers(s, j + 1).Parse? ==>
      ParseMembers(s, i) == Parse([(name, v)] + ParseMembers(s, j + 1).value, ParseMembers(s, j + 1).next)
  {
    hide ParseValue, ParseString;
    SkipNothing(s, i);
    SkipNothing(s, c);
    SkipNothing(s, j);
  }

  lemma ScalarParses(s: string, i: nat, v: Value)
    requires Here(s, i, Text(v)) && Printable(v) && Ends(s, i + |Text(v)|) && !v.Arr? && !v.Obj?
    ensures ParseValue(s, i) == Parse(v, i + |Text(v)|)
  {
    hide Here, NumberEnd, ParseString, ParseItems, ParseMembers;
    TextStart(v);
    HereAt(s, i, Text(v), 0);
    SkipNothing(s, i);
    match v
    case Null => WordParses(s, i, "null", v);
    case Bool(b) => WordParses(s, i, Text(v), v);
    case Num(text) =>
      NumberStart(text);
      NumberInContext(s, i, text);
      HereSlice(s, i, text);
    case Str(t) => StringParses(s, i, t);
  }

  /** Printed values parse back, whatever stands behind them. */
  lemma {:induction false} ValueParses(s: string, i: nat, v: Value)
    requires Here(s, i, Text(v)) && Printable(v) && Ends(s, i + |Text(v)|)
    ensures ParseValue(s, i) == Parse(v, i + |Text(v)|)
    decreases v, 0
  {
    hide Here, ParseValue, ParseItems, ParseMembers, ItemsText, MembersText, IsNumber, IsClean;
    match v
    case Arr(items) =>
      assert Text(v) == "[" + (ItemsText(items) + "]");
      HereConcat(s, i, "[", ItemsText(items) + "]");
      HereAt(s, i, "[", 0);
      ItemsStart(items);
      HereAt(s, i + 1, ItemsText(items) + "]", 0);
      ArrayStep(s, i);
      if items != [] {
        ItemsParse(s, i + 1, items);
      }
    case Obj(members) =>
      assert Text(v) == "{" + (MembersText(members) + "}");
      HereConcat(s, i, "{", MembersText(members) + "}");
      HereAt(s, i, "{", 0);
      MembersStart(members);
      HereAt(s, i + 1, MembersText(members) + "}", 0);
      ObjectStep(s, i);
      if members != [] {
        MembersParse(s, i + 1, members);
      }
    case _ => ScalarParses(s, i, v);
  }

  lemma HereSlice(s: string, i: nat, x: string)
    requires Here(s, i, x)
    ensures i + |x| <= |s| && s[i..i + |x|] == x
  {
  }

  lemma WordParses(s: string, i: nat, word: string, v: Value)
    requires word != [] && Here(s, i, word)
    ensures ParseWord(s, i, word, v) == Parse(v, i + |word|)
  {
  }

  lemma ItemsStart(items: seq<Value>)
    requires forall k :: 0 <= k < |items| ==> Printable(items[k])
    ensures items == [] ==> ItemsText(items) == ""
    ensures items != [] ==>
      ItemsText(items) != [] && !IsSpace(ItemsText(items)[0]) && ItemsText(items)[0] != ']'
  {
    if items != [] {
      TextStart(items[0]);
    }
  }

  lemma MembersStart(members: seq<(string, Value)>)
    ensures members == [] ==> MembersText(members) == ""
    ensures members != [] ==> MembersText(members) != [] && MembersText(members)[0] == '"'
  {
  }

  lemma {:induction false} ItemsParse(s: string, i: nat, items: seq<Value>)
    requires items != [] && Here(s, i, ItemsText(items) + "]")
    requires forall k :: 0 <= k < |items| ==> Printable(items[k])
    ensures ParseItems(s, i) == Parse(items, i + |ItemsText(items)| + 1)
    decreases items, 1
  {
    hide Here, ParseItems, ParseValue, Text, Printable;
    var first := Text(items[0]);
    var j := i + |first|;
    if |items| == 1 {
      HereConcat(s, i, first, "]");
      HereAt(s, j, "]", 0);
      ValueParses(s, i, items[0]);
      ItemsStep(s, i, items[0], j);
      assert items == [items[0]];
    } else {
      var rest := items[1..];
      assert ItemsText(items) + "]" == first + ("," + (ItemsText(rest) + "]"));
      HereConcat(s, i, first, "," + (ItemsText(rest) + "]"));
      HereConcat(s, j, ",", ItemsText(rest) + "]");
      HereAt(s, j, ",", 0);
      ValueParses(s, i, items[0]);
      ItemsParse(s, j + 1, rest);
      ItemsStep(s, i, items[0], j);
      assert items == [items[0]] + rest;
    }
  }

  lemma {:induction false} MembersParse(s: string, i: nat, members: seq<(string, Value)>)
    requires members != [] && Here(s, i, MembersText(members) + "}")
    requires forall k :: 0 <= k < |members| ==> IsClean(members[k].0) && Printable(members[k].1)
    ensures ParseMembers(s, i) == Parse(members, i + |MembersText(members)| + 1)
    decreases members, 1
  {
    hide Here, ParseMembers, ParseValue, ParseString, MemberText, Printable, IsClean;
    var m := members[0];
    var j := i + |MemberText(m)|;
    if |members| == 1 {
      HereConcat(s, i, MemberText(m), "}");
      HereAt(s, j, "}", 0);
      var c := MemberParses(s, i, m);
      MembersStep(s, i, m.0, c, m.1, j);
      assert members == [m];
    } else {
      var rest := members[1..];
      assert MembersText(members) + "}" == MemberText(m) + ("," + (MembersText(rest) + "}"));
      HereConcat(s, i, MemberText(m), "," + (MembersText(rest) + "}"));
      HereConcat(s, j, ",", MembersText(rest) + "}");
      HereAt(s, j, ",", 0);
      var c := MemberParses(s, i, m);
      MembersParse(s, j + 1, rest);
      MembersStep(s, i, m.0, c, m.1, j);
      assert members == [m] + rest;
    }
  }

  lemma {:induction false} MemberParses(s: string, i: nat, m: (string, Value)) returns (c: nat)
    requires Here(s, i, MemberText(m)) && IsClean(m.0) && Printable(m.1) && Ends(s, i + |MemberText(m)|)
    ensures i < |s| && !IsSpace(s[i]) && ParseString(s, i) == Parse(m.0, c)
    ensures c < |s| && s[c] == ':' && ParseValue(s, c + 1) == Parse(m.1, i + |MemberText(m)|)
    decreases m, 0
  {
    hide Here, ParseString, ParseValue, Text, Printable, IsClean;
    c := i + |Quoted(m.0)|;
    HereConcat(s, i, Quoted(m.0) + ":", Text(m.1));
    HereConcat(s, i, Quoted(m.0), ":");
    HereAt(s, i, Quoted(m.0), 0);
    HereAt(s, c, ":", 0);
    StringParses(s, i, m.0);
    ValueParses(s, c + 1, m.1);
  }

  /** The compact text of a value is a JSON text with that value. */
  lemma TextParses(v: Value)
    requires Printable(v)
    ensures ParseText(Text(v)) == Parse(v, |Text(v)|)
  {
    assert Text(v)[0..|Text(v)|] == Text(v);
    ValueParses(Text(v), 0, v);
  }

  /** Quoting without escapes is right exactly for clean strings. */
  lemma QuotedParses(s: string)
    ensures ParseText(Quoted(s)) == Parse(Str(s), |Quoted(s)|) <==> IsClean(s)
  {
    hide ParseItems, ParseMembers, NumberEnd;
    if IsClean(s) {
      TextParses(Str(s));
    }
    if ParseText(Quoted(s)) == Parse(Str(s), |Quoted(s)|) {
      var q := Quoted(s);
      var j := CleanEnd(q, 1);
      assert q[1..j] == s;
      assert forall k :: 0 <= k < |s| ==> s[k] == q[k + 1];
    }
  }

  /** A token is read back as that number exactly when it follows the grammar. */
  lemma NumberParses(t: string)
    ensures ParseText(t) == Parse(Num(t), |t|) <==> IsNumber(t)
  {
    hide ParseItems, ParseMembers, NumberEnd;
    if IsNumber(t) {
      TextParses(Num(t));
    }
    if ParseText(t) == Parse(Num(t), |t|) {
      var i := SkipSpace(t, 0);
      assert |t[i..NumberEnd(t, i)]| == |t|;
    }
  }

  // --- everything the parser returns can be printed ------------------------------------------------

  lemma {:induction false} DigitsInSlice(s: string, i: nat, e: nat, k: nat)
    requires i <= k <= e <= |s| && SkipDigits(s, k) <= e
    ensures SkipDigits(s[i..e], k - i) == SkipDigits(s, k) - i
    decreases e - k
  {
    if k < e && IsDigit(s[k]) {
      DigitsInSlice(s, i, e, k + 1);
    }
  }

  lemma IntInSlice(s: string, i: nat, e: nat, k: nat)
    requires i <= k <= e <= |s| && IntEnd(s, k) <= e && IntEnd(s, k) > k
    ensures IntEnd(s[i..e], k - i) == IntEnd(s, k) - i
  {
    hide SkipDigits;
    if s[k] != '0' {
      DigitsInSlice(s, i, e, k);
    }
  }

  lemma FracInSlice(s: string, i: nat, e: nat, n: nat)
    requires i <= n <= |s| && e == ExpEnd(s, FracEnd(s, n))
    ensures FracEnd(s[i..e], n - i) == FracEnd(s, n) - i
  {
    hide SkipDigits, ExpEnd;
    if n < |s| && s[n] == '.' {
      if SkipDigits(s, n + 1) > n + 1 {
        DigitsInSlice(s, i, e, n + 1);
      } else {
        NoExponent(s, n);
      }
    }
  }

  lemma NoExponent(s: string, n: nat)
    requires n < |s| && s[n] == '.'
    ensures ExpEnd(s, n) == n
  {
  }

  lemma ExpInSlice(s: string, i: nat, e: nat, f: nat)
    requires i <= f <= |s| && e == ExpEnd(s, f)
    ensures ExpEnd(s[i..e], f - i) == e - i
  {
    hide SkipDigits;
    if e > f {
      var k := if f + 1 < |s| && (s[f + 1] == '+' || s[f + 1] == '-') then f + 2 else f + 1;
      DigitsInSlice(s, i, e, k);
      assert s[i..e][f - i] == s[f];
    }
  }

  /** The stretch that is read as a number is one for itself. */
  lemma NumberSlice(s: string, i: nat)
    requires i <= |s| && NumberEnd(s, i) > i
    ensures IsNumber(s[i..NumberEnd(s, i)])
  {
    hide IntEnd, FracEnd, ExpEnd;
    var e := NumberEnd(s, i);
    var k := SkipChar(s, i, '-');
    var n := IntEnd(s, k);
    assert s[i..e][0] == s[i];
    IntInSlice(s, i, e, k);
    FracInSlice(s, i, e, n);
    ExpInSlice(s, i, e, FracEnd(s, n));
  }

  lemma CleanSlice(s: string, i: nat)
    requires i <= |s|
    ensures IsClean(s[i..CleanEnd(s, i)])
  {
    hide IsUnescaped;
    var t := s[i..CleanEnd(s, i)];
    forall k | 0 <= k < |t|
      ensures IsUnescaped(t[k])
    {
      assert t[k] == s[i + k];
    }
  }

  lemma StringPrintable(s: string, i: nat)
    requires i <= |s| && ParseString(s, i).Parse?
    ensures IsClean(ParseString(s, i).value)
  {
    hide IsClean, CleanEnd;
    CleanSlice(s, i + 1);
  }

  /** Whatever is accepted, strings are clean and numbers follow the grammar. */
  lemma {:induction false} ValuePrintable(s: string, start: nat)
    requires start <= |s| && ParseValue(s, start).Parse?
    ensures Printable(ParseValue(s, start).value)
    decreases |s| - start, 0
  {
    hide IsClean, IsNumber, NumberEnd, ParseString;
    var i := SkipSpace(s, start);
    if s[i] == '"' {
      StringPrintable(s, i);
    } else if s[i] == '[' {
      if ParseItems(s, i + 1).Parse? {
        ItemsPrintable(s, i + 1);
      }
    } else if s[i] == '{' {
      if ParseMembers(s, i + 1).Parse? {
        MembersPrintable(s, i + 1);
      }
    } else if NumberEnd(s, i) > i {
      NumberSlice(s, i);
    }
  }

  lemma {:induction false} ItemsPrintable(s: string, i: nat)
    requires i <= |s| && ParseItems(s, i).Parse?
    ensures forall k :: 0 <= k < |ParseItems(s, i).value| ==> Printable(ParseItems(s, i).value[k])
    decreases |s| - i, 1
  {
    hide Printable, ParseValue;
    ValuePrintable(s, i);
    var k := SkipSpace(s, ParseValue(s, i).next);
    if s[k] == ',' {
      ItemsPrintable(s, k + 1);
    }
  }

  lemma {:induction false} MembersPrintable(s: string, start: nat)
    requires start <= |s| && ParseMembers(s, start).Parse?
    ensures forall k :: 0 <= k < |ParseMembers(s, start).value| ==>
      IsClean(ParseMembers(s, start).value[k].0) && Printable(ParseMembers(s, start).value[k].1)
    decreases |s| - start, 1
  {
    hide Printable, ParseValue, IsClean, ParseString;
    StringPrintable(s, SkipSpace(s, start));
    var c := SkipSpace(s, ParseString(s, SkipSpace(s, start)).next);
    ValuePrintable(s, c + 1);
    var k := SkipSpace(s, ParseValue(s, c + 1).next);
    if s[k] == ',' {
      MembersPrintable(s, k + 1);
    }
  }

  /** The compact text of a value reads back as that value exactly when nothing in it needs an
      escape and every number follows the grammar. */
  lemma TextParsesIff(v: Value)
    ensures ParseText(Text(v)) == Parse(v, |Text(v)|) <==> Printable(v)
  {
    hide Text, Printable, ParseValue;
    if Printable(v) {
      TextParses(v);
    }
    if ParseText(Text(v)) == Parse(v, |Text(v)|) {
      ValuePrintable(Text(v), 0);
    }
  }

  // --- white space --------------------------------------------------------------------------------------

  ghost predicate Blank(t: string) {
    forall i :: 0 <= i < |t| ==> IsSpace(t[i])
  }

  lemma {:induction false} BlankSkipped(s: string, i: nat, j: nat)
    requires i <= j <= |s| && (forall k :: i <= k < j ==> IsSpace(s[k]))
    requires j == |s| || !IsSpace(s[j])
    ensures SkipSpace(s, i) == j
    decreases j - i
  {
    if i < j {
      BlankSkipped(s, i + 1, j);
    }
  }

  lemma {:induction false} SkippedBlank(s: string, i: nat)
    requires i <= |s|
    ensures forall k :: i <= k < SkipSpace(s, i) ==> IsSpace(s[k])
    decreases |s| - i
  {
    if i < |s| && IsSpace(s[i]) {
      SkippedBlank(s, i + 1);
    }
  }

  /** White space around the text of a value does not matter. */
  lemma BlankAround(a: string, v: Value, b: string)
    requires Printable(v) && Blank(a) && Blank(b)
    ensures ParseText(a + Text(v) + b) == Parse(v, |a| + |Text(v)|)
  {
    hide ParseItems, ParseMembers, Text, Printable, NumberEnd;
    var s := a + Text(v) + b;
    var i, j := |a|, |a| + |Text(v)|;
    assert Here(s, i, Text(v)) by {
      assert s[i..j] == Text(v);
    }
    TextStart(v);
    HereAt(s, i, Text(v), 0);
    forall k | 0 <= k < i
      ensures IsSpace(s[k])
    {
      assert s[k] == a[k];
    }
    forall k | j <= k < |s|
      ensures IsSpace(s[k])
    {
      assert s[k] == b[k - j];
    }
    BlankSkipped(s, 0, i);
    BlankSkipped(s, i, i);
    BlankSkipped(s, j, |s|);
    ValueParses(s, i, v);
    assert ParseValue(s, 0) == ParseValue(s, i);
  }

  /** And nothing else may follow a value. */
  lemma NothingFollows(s: string)
    requires ParseText(s).Parse?
    ensures ParseText(s).next <= |s| && Blank(s[ParseText(s).next..])
  {
    hide ParseValue;
    SkippedBlank(s, ParseText(s).next);
  }

  // --- the grammar without the parser -------------------------------------------------------------------

  ghost predicate Digits(t: string) {
    t != "" && forall i :: 0 <= i < |t| ==> t[i] in "0123456789"
  }

  ghost predicate IntText(t: string) {
    t == "0" || (Digits(t) && t[0] != '0')
  }

  ghost predicate FracText(t: string) {
    t == "" || (t[0] == '.' && Digits(t[1..]))
  }

  ghost predicate ExpText(t: string) {
    t == "" || (t[0] in "eE" && (Digits(t[1..]) || (|t| > 1 && t[1] in "+-" && Digits(t[2..]))))
  }

  ghost predicate NumberParts(t: string, minus: string, whole: string, frac: string, exp: string) {
    t == minus + whole + frac + exp && minus in {"", "-"} && IntText(whole) && FracText(frac) && ExpText(exp)
  }

  /** number = [ minus ] int [ frac ] [ exp ] of section 6 of RFC 8259. */
  ghost predicate NumberText(t: string) {
    exists minus, whole, frac, exp :: NumberParts(t, minus, whole, frac, exp)
  }

  lemma DigitIs(c: char)
    ensures IsDigit(c) <==> c in "0123456789"
  {
    if IsDigit(c) {
      var i := c as int - '0' as int;
      assert "0123456789"[i] == c;
    }
  }

  lemma {:induction false} DigitsSkipped(s: string, i: nat)
    requires i <= |s|
    ensures forall k :: i <= k < SkipDigits(s, i) ==> s[k] in "0123456789"
    decreases |s| - i
  {
    if i < |s| {
      DigitIs(s[i]);
      if IsDigit(s[i]) {
        DigitsSkipped(s, i + 1);
      }
    }
  }

  lemma {:induction false} DigitsStop(s: string, i: nat, j: nat)
    requires i <= j <= |s| && (forall k :: i <= k < j ==> s[k] in "0123456789")
    requires j == |s| || s[j] !in "0123456789"
    ensures SkipDigits(s, i) == j
    decreases j - i
  {
    if i < |s| {
      DigitIs(s[i]);
      if i < j {
        DigitsStop(s, i + 1, j);
      }
    }
  }

  lemma DigitSlice(s: string, i: nat, j: nat)
    requires i < j <= |s| && forall k :: i <= k < j ==> s[k] in "0123456789"
    ensures Digits(s[i..j])
  {
  }

  lemma IntSplits(s: string, i: nat)
    requires i <= |s| && IntEnd(s, i) > i
    ensures IntText(s[i..IntEnd(s, i)])
  {
    if s[i] == '0' {
      assert s[i..i + 1] == "0";
    } else {
      DigitsSkipped(s, i);
      DigitSlice(s, i, SkipDigits(s, i));
    }
  }

  lemma FracSplits(s: string, i: nat)
    requires i <= |s|
    ensures FracText(s[i..FracEnd(s, i)])
  {
    var j := FracEnd(s, i);
    if j > i {
      DigitsSkipped(s, i + 1);
      DigitSlice(s, i + 1, j);
      assert s[i..j][1..] == s[i + 1..j];
    }
  }

  lemma ExpSplits(s: string, i: nat)
    requires i <= |s|
    ensures ExpText(s[i..ExpEnd(s, i)])
  {
    var j := ExpEnd(s, i);
    if j > i {
      var k := if i + 1 < |s| && (s[i + 1] == '+' || s[i + 1] == '-') then i + 2 else i + 1;
      DigitsSkipped(s, k);
      DigitSlice(s, k, j);
      assert s[i..j][k - i..] == s[k..j];
    }
  }

  /** What is parsed as a number is one. */
  lemma NumberSplits(t: string)
    requires IsNumber(t)
    ensures NumberText(t)
  {
    hide IntEnd, FracEnd, ExpEnd, IntText, FracText, ExpText;
    var k := SkipChar(t, 0, '-');
    var n := IntEnd(t, k);
    var f := FracEnd(t, n);
    IntSplits(t, k);
    FracSplits(t, n);
    ExpSplits(t, f);
    var minus, whole, frac, exp := t[..k], t[k..n], t[n..f], t[f..];
    assert minus == "" || minus == "-";
    assert t == minus + whole + frac + exp;
    assert NumberEnd(t, 0) == ExpEnd(t, f) == |t|;
    assert exp == t[f..|t|];
    NumberWitness(t, minus, whole, frac, exp);
  }

  lemma NumberWitness(t: string, minus: string, whole: string, frac: string, exp: string)
    requires t == minus + whole + frac + exp && minus in {"", "-"} && IntText(whole) && FracText(frac) && ExpText(exp)
    ensures NumberText(t)
  {
    assert NumberParts(t, minus, whole, frac, exp);
  }

  lemma IntJoins(s: string, i: nat, whole: string)
    requires Here(s, i, whole) && IntText(whole)
    requires i + |whole| == |s| || s[i + |whole|] !in "0123456789"
    ensures IntEnd(s, i) == i + |whole|
  {
    assert s[i] == whole[0];
    if whole != "0" {
      forall k | i <= k < i + |whole|
        ensures s[k] in "0123456789"
      {
        assert s[k] == whole[k - i];
      }
      DigitsStop(s, i, i + |whole|);
    }
  }

  lemma TailDigits(s: string, i: nat, t: string, from: nat)
    requires Here(s, i, t) && from < |t| && Digits(t[from..])
    requires i + |t| == |s| || s[i + |t|] !in "0123456789"
    ensures SkipDigits(s, i + from) == i + |t|
  {
    forall k | i + from <= k < i + |t|
      ensures s[k] in "0123456789"
    {
      assert s[k] == t[k - i] == t[from..][k - i - from];
    }
    DigitsStop(s, i + from, i + |t|);
  }

  lemma FracJoins(s: string, i: nat, frac: string)
    requires Here(s, i, frac) && FracText(frac)
    requires i + |frac| == |s| || s[i + |frac|] in "eE"
    ensures FracEnd(s, i) == i + |frac|
  {
    if frac != "" {
      assert s[i] == frac[0];
      TailDigits(s, i, frac, 1);
    }
  }

  lemma ExpJoins(s: string, i: nat, exp: string)
    requires Here(s, i, exp) && ExpText(exp) && i + |exp| == |s|
    ensures ExpEnd(s, i) == |s|
  {
    if exp != "" {
      assert s[i] == exp[0] && (|exp| > 1 ==> s[i + 1] == exp[1]);
      if Digits(exp[1..]) {
        assert exp[1] == exp[1..][0];
        TailDigits(s, i, exp, 1);
      } else {
        TailDigits(s, i, exp, 2);
      }
    }
  }

  lemma FracHead(frac: string)
    requires FracText(frac) && frac != ""
    ensures frac[0] == '.'
  {
  }

  lemma ExpHead(exp: string)
    requires ExpText(exp) && exp != ""
    ensures exp[0] in "eE"
  {
  }

  lemma IntHead(whole: string)
    requires IntText(whole)
    ensures whole != "" && whole[0] in "0123456789"
  {
  }

  lemma PartsHere(t: string, a: string, b: string, c: string, d: string)
    requires t == a + b + c + d
    ensures Here(t, 0, a) && Here(t, |a|, b) && Here(t, |a| + |b|, c) && Here(t, |a| + |b| + |c|, d)
    ensures |t| == |a| + |b| + |c| + |d|
  {
    hide Here;
    assert Here(t, 0, a + b + c + d) by { AllHere(t); }
    HereConcat(t, 0, a + b + c, d);
    HereConcat(t, 0, a + b, c);
    HereConcat(t, 0, a, b);
  }

  lemma AllHere(t: string)
    ensures Here(t, 0, t)
  {
  }

  lemma SignSkipped(t: string, minus: string, whole: string)
    requires minus in {"", "-"} && IntText(whole) && Here(t, 0, minus) && Here(t, |minus|, whole)
    ensures SkipChar(t, 0, '-') == |minus|
  {
    hide IntText, Here;
    IntHead(whole);
    HereAt(t, |minus|, whole, 0);
    if minus == "-" {
      HereAt(t, 0, minus, 0);
    }
  }

  /** And every number is parsed as one, to its end. */
  lemma NumberJoins(t: string, minus: string, whole: string, frac: string, exp: string)
    requires NumberParts(t, minus, whole, frac, exp)
    ensures IsNumber(t)
  {
    hide IntEnd, FracEnd, ExpEnd, IntText, FracText, ExpText, Here, SkipChar;
    var k := |minus|;
    var n := k + |whole|;
    var f := n + |frac|;
    PartsHere(t, minus, whole, frac, exp);
    SignSkipped(t, minus, whole);
    IntHead(whole);
    if frac != "" {
      FracHead(frac);
      HereAt(t, n, frac, 0);
    }
    if exp != "" {
      ExpHead(exp);
      HereAt(t, f, exp, 0);
    }
    IntJoins(t, k, whole);
    FracJoins(t, n, frac);
    ExpJoins(t, f, exp);
  }

  lemma NumberIff(t: string)
    ensures IsNumber(t) <==> NumberText(t)
  {
    hide IsNumber, NumberParts;
    if IsNumber(t) {
      NumberSplits(t);
    }
    if minus, whole, frac, exp :| NumberParts(t, minus, whole, frac, exp) {
      NumberJoins(t, minus, whole, frac, exp);
    }
  }

  /** unescaped = %x20-21 / %x23-5B / %x5D-10FFFF of section 7, and the white space of section 2. */
  lemma CharactersAre(c: char)
    ensures IsUnescaped(c) <==> 0x20 <= c as int <= 0x21 || 0x23 <= c as int <= 0x5B || 0x5D <= c as int
    ensures IsSpace(c) <==> c as int in {0x20, 0x09, 0x0A, 0x0D}
  {
  }
}
