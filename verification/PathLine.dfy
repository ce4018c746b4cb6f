/** The codec for Merkle paths: a sequence of directions written as digits joined by '/'. */
module PathLine {
  import opened Wrappers

  datatype PathDirection = L | R {
    /** The position of the child in a Merkle node, which is also the digit in the encoded path. */
    function Index(): nat {
      match this
      case L => 0
      case R => 1
    }

    function Digit(): string {
      match this
      case L => "0"
      case R => "1"
    }
  }

  // ----- Strings -----

  function Join(parts: seq<string>): string
  {
    if parts == [] then ""
    else if |parts| == 1 then parts[0]
    else parts[0] + "/" + Join(parts[1..])
  }

  function Split(s: string): (parts: seq<string>)
    ensures parts != []
  {
    if s == "" then [""]
    else
      var rest := Split(s[1..]);
      if s[0] == '/' then [""] + rest else [[s[0]] + rest[0]] + rest[1..]
  }

  lemma {:induction false} JoinSplit(s: string)
    ensures Join(Split(s)) == s
  {
    if s != "" {
      JoinSplit(s[1..]);
      var rest := Split(s[1..]);
      if s[0] == '/' {
        assert ([""] + rest)[1..] == rest;
      } else {
        var parts := [[s[0]] + rest[0]] + rest[1..];
        assert parts[1..] == rest[1..];
        assert s == [s[0]] + s[1..];
      }
    }
  }

  lemma {:induction false} SplitPlain(s: string)
    requires '/' !in s
    ensures Split(s) == [s]
  {
    if s != "" {
      SplitPlain(s[1..]);
      assert s == [s[0]] + s[1..];
    }
  }

  lemma {:induction false} SplitAtSlash(head: string, tail: string)
    requires '/' !in head
    ensures Split(head + "/" + tail) == [head] + Split(tail)
  {
    var s := head + "/" + tail;
    if head == "" {
      assert s[1..] == tail;
    } else {
      SplitAtSlash(head[1..], tail);
      assert s[1..] == head[1..] + "/" + tail;
      assert head == [head[0]] + head[1..];
    }
  }

  lemma {:induction false} SplitJoin(parts: seq<string>)
    requires parts != []
    requires forall i | 0 <= i < |parts| :: '/' !in parts[i]
    ensures Split(Join(parts)) == parts
  {
    if |parts| == 1 {
      SplitPlain(parts[0]);
    } else {
      SplitAtSlash(parts[0], Join(parts[1..]));
      SplitJoin(parts[1..]);
      assert parts == [parts[0]] + parts[1..];
    }
  }

  // ----- Numbers, as `parseInt(_, 10)` and `String(_)` treat them -----

  /** A negative zero is a value of its own, but prints without its sign. */
  datatype Number = NaN | Integer(negative: bool, magnitude: nat)

  predicate IsDigit(c: char) {
    '0' <= c <= '9'
  }

  predicate IsSpace(c: char) {
    c == ' ' || c == '\t' || c == '\n' || c == '\r'
  }

  function DigitsValue(s: string, acc: nat): nat {
    if s == "" || !IsDigit(s[0]) then acc
    else DigitsValue(s[1..], 10 * acc + (s[0] as int - '0' as int))
  }

  function SkipSpaces(s: string): string {
    if s != "" && IsSpace(s[0]) then SkipSpaces(s[1..]) else s
  }

  /** Leading blanks, an optional sign, then the longest run of digits; no digit at all is NaN. */
  function ParseInt(s: string): Number {
    var t := SkipSpaces(s);
    var negative := t != "" && t[0] == '-';
    var digits := if t != "" && (t[0] == '-' || t[0] == '+') then t[1..] else t;
    if digits == "" || !IsDigit(digits[0]) then NaN else Integer(negative, DigitsValue(digits, 0))
  }

  function Decimal(n: nat): string {
    var digit := [('0' as int + n % 10) as char];
    if n < 10 then digit else Decimal(n / 10) + digit
  }

  /** From 2^53 on JavaScript rounds; such an element is rejected by DecodeElement whatever it prints. */
  function ToString(n: Number): string {
    match n
    case NaN => "NaN"
    case Integer(negative, magnitude) =>
      (if negative && magnitude != 0 then "-" else "") + Decimal(magnitude)
  }

  // ----- The codec -----

  function Encode(line: seq<PathDirection>): string {
    Join(Digits(line))
  }

  function Digits(line: seq<PathDirection>): (parts: seq<string>)
    ensures |parts| == |line|
    ensures forall i | 0 <= i < |line| :: parts[i] == line[i].Digit()
  {
    if line == [] then [] else [line[0].Digit()] + Digits(line[1..])
  }

  /** One element of the split input: it must be the canonical text of 0 or of 1. */
  function DecodeElement(element: string): Option<PathDirection> {
    var number := ParseInt(element);
    if ToString(number) != element then None
    else match number
      case NaN => None
      case Integer(negative, magnitude) =>
        if magnitude == 1 && !negative then Some(R)
        else if magnitude == 0 then Some(L)
        else None
  }

  function DecodeElements(elements: seq<string>): Option<seq<PathDirection>> {
    if elements == [] then Some([])
    else match DecodeElement(elements[0])
      case None => None
      case Some(first) =>
        match DecodeElements(elements[1..])
        case None => None
        case Some(rest) => Some([first] + rest)
  }

  function Decode(input: string): Option<seq<PathDirection>> {
    DecodeElements(Split(input))
  }

  /** The loop that pushes one direction per element and gives up at the first bad one. */
  method DecodeLine(input: string) returns (line: Option<seq<PathDirection>>)
    ensures line == Decode(input)
    ensures line.Some? <==> exists p: seq<PathDirection> :: p != [] && Encode(p) == input
    ensures line.Some? ==> line.value != [] && Encode(line.value) == input
  {
    var elements := Split(input);
    var result: seq<PathDirection> := [];
    assert elements[0..] == elements;
    assert forall rest: seq<PathDirection> :: [] + rest == rest;
    for i := 0 to |elements|
      invariant Decode(input) == match DecodeElements(elements[i..])
                                 case None => None
                                 case Some(rest) => Some(result + rest)
    {
      assert elements[i..][1..] == elements[i + 1..];
      match DecodeElement(elements[i])
      case None =>
        DecodeAccepts(input);
        return None;
      case Some(direction) =>
        assert forall rest: seq<PathDirection> :: result + ([direction] + rest) == (result + [direction]) + rest;
        result := result + [direction];
    }
    DecodeAccepts(input);
    assert elements[|elements|..] == [] && result + [] == result;
    return Some(result);
  }

  // ----- What the codec promises -----

  lemma DecodeElementDigit(element: string, direction: PathDirection)
    ensures DecodeElement(element) == Some(direction) <==> element == direction.Digit()
  {
    assert DigitsValue("0", 0) == 0;
    assert DigitsValue("1", 0) == 1;
    assert Decimal(0) == "0" && Decimal(1) == "1";
  }

  lemma {:induction false} DecodeElementsDigits(elements: seq<string>, line: seq<PathDirection>)
    ensures DecodeElements(elements) == Some(line) <==> elements == Digits(line)
  {
    if elements == [] || line == [] {
    } else {
      DecodeElementDigit(elements[0], line[0]);
      DecodeElementsDigits(elements[1..], line[1..]);
      assert elements == [elements[0]] + elements[1..];
      assert line == [line[0]] + line[1..];
      match DecodeElement(elements[0]) {
        case None =>
        case Some(first) =>
          match DecodeElements(elements[1..]) {
            case None =>
            case Some(rest) =>
              assert ([first] + rest)[0] == first && ([first] + rest)[1..] == rest;
          }
      }
    }
  }

  lemma RoundTrip(line: seq<PathDirection>)
    requires line != []
    ensures Decode(Encode(line)) == Some(line)
  {
    SplitJoin(Digits(line));
    DecodeElementsDigits(Digits(line), line);
  }

  /** What is accepted is in canonical form: encoding the decoded path gives the input back. */
  lemma DecodeThenEncode(input: string)
    requires Decode(input).Some?
    ensures Decode(input).value != []
    ensures Encode(Decode(input).value) == input
  {
    DecodeElementsDigits(Split(input), Decode(input).value);
    JoinSplit(input);
  }

  /** The accepted strings are exactly the encodings of non-empty paths. */
  lemma DecodeAccepts(input: string)
    ensures Decode(input).Some? <==> exists p: seq<PathDirection> :: p != [] && Encode(p) == input
    ensures Decode(input).Some? ==> Decode(input).value != [] && Encode(Decode(input).value) == input
  {
    if Decode(input).Some? {
      DecodeThenEncode(input);
    }
    forall p: seq<PathDirection> | p != [] && Encode(p) == input
      ensures Decode(input) == Some(p)
    {
      RoundTrip(p);
    }
  }

  /** Left is written 0 and right 1; paths of two and three steps, and what is not a path. */
  lemma WrittenPaths()
    ensures Encode([L]) == "0" && Encode([R]) == "1"
    ensures Encode([L, R]) == "0/1" && Decode("0/1") == Some([L, R])
    ensures Encode([L, R, R]) == "0/1/1" && Decode("0/1/1") == Some([L, R, R])
    ensures Decode("0/").None? && Decode("0/2").None? && Decode("/0/2").None?
  {
    assert Encode([L, R]) == "0/1" && Encode([L, R, R]) == "0/1/1";
    RoundTrip([L, R]);
    RoundTrip([L, R, R]);
    NotAPath("0/", 1);
    NotAPath("0/2", 1);
    NotAPath("/0/2", 0);
  }

  /** A string with an element other than 0 or 1 is no path. */
  lemma NotAPath(input: string, i: nat)
    requires i < |Split(input)| && Split(input)[i] != "0" && Split(input)[i] != "1"
    ensures Decode(input).None?
  {
    if Decode(input).Some? {
      DecodeElementsDigits(Split(input), Decode(input).value);
    }
  }

  /** Decimal digits, read back, give the number. */
  lemma {:induction false} DecimalValue(n: nat)
    ensures Decimal(n) != "" && forall i | 0 <= i < |Decimal(n)| :: IsDigit(Decimal(n)[i])
    ensures DigitsValue(Decimal(n), 0) == n
  {
    if n >= 10 {
      DecimalValue(n / 10);
      DigitsValueAppend(Decimal(n / 10), ('0' as int + n % 10) as char, 0);
    }
  }

  lemma {:induction false} DigitsValueAppend(s: string, digit: char, acc: nat)
    requires IsDigit(digit) && forall i | 0 <= i < |s| :: IsDigit(s[i])
    ensures DigitsValue(s + [digit], acc) == 10 * DigitsValue(s, acc) + (digit as int - '0' as int)
  {
    if s != "" {
      DigitsValueAppend(s[1..], digit, 10 * acc + (s[0] as int - '0' as int));
      assert (s + [digit])[1..] == s[1..] + [digit];
    } else {
      assert (s + [digit])[1..] == "";
    }
  }

  lemma EmptyPathRejected()
    ensures Encode([]) == "" && Decode(Encode([])) == None
  {
  }
}
