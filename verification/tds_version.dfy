/**
 The TDS protocol-version decoder of check_tds_protocol_version: the integer
 protocol_version that SQL Server reports for the current session is looked
 up in a fixed table of six known codes; any other value becomes the label
 "unknown (<code>)". The database round-trip that fetches the integer is not
 modelled: the fetched value is the argument of Decode.
 */
module TdsVersion {
  import opened Wrappers
  import opened Decimal
  import opened Word32

  /** The code-to-label table, one entry per known TDS version. */
  const ProtocolVersions: map<int, string> := map[
    67239936 := "4.2",
    117440512 := "7.0",
    1895825409 := "7.1",
    1913192450 := "7.2",
    1930100739 := "7.3",
    1946157060 := "7.4"
  ]

  /**
   The keys of the table again, in the order its literal lists them. A map has
   no order, so the reverse lookup in Recover searches this list;
   KnownCodesAreTheKeys proves it holds exactly the table's keys.
   */
  const KnownCodes: seq<int> := [67239936, 117440512, 1895825409, 1913192450, 1930100739, 1946157060]

  /** The byte value of an ASCII character, as it appears inside a Python bytes literal. */
  function Ascii(c: char): Byte
    requires c as int < 0x80
  {
    (c as int) as Byte
  }

  /**
   The byte string written beside each table entry, spelled as the Python
   bytes literal spells it (a printable byte as its character, '\t' for 9).
   */
  const CommentWords: map<int, seq<Byte>> := map[
    67239936 := [0x04, 0x02, 0x00, 0x00],
    117440512 := [0x07, 0x00, 0x00, 0x00],
    1895825409 := [Ascii('q'), 0x00, 0x00, 0x01],
    1913192450 := [Ascii('r'), Ascii('\t'), 0x00, 0x02],
    1930100739 := [Ascii('s'), 0x0b, 0x00, 0x03],
    1946157060 := [Ascii('t'), 0x00, 0x00, 0x04]
  ]

  /** The word that opens every fallback label. */
  const UnknownWord: string := "unknown"

  const UnknownPrefix: string := UnknownWord + " ("

  /** A known label: one digit, a dot, one digit. */
  predicate IsVersionLabel(s: string) {
    |s| == 3 && IsDigit(s[0]) && s[1] == '.' && IsDigit(s[2])
  }

  /** The shape of the fallback label: "unknown (", some text, ")". */
  predicate HasUnknownForm(s: string) {
    |s| >= |UnknownPrefix| + 1 && s[..|UnknownPrefix|] == UnknownPrefix && s[|s| - 1] == ')'
  }

  /** The text between "unknown (" and the closing ")". */
  function UnknownPayload(s: string): string
    requires HasUnknownForm(s)
  {
    s[|UnknownPrefix|..|s| - 1]
  }

  /**
   tds_version: the table's label for a known code, and otherwise
   "unknown (" followed by the code in decimal and ")". Every integer gets a
   label; an unrecognised code is a value, not an error. The label kinds are
   told apart by shape, and the fallback carries its code in readable form.
   Codes are unbounded integers: the fallback is written for codes of any
   length, although Python 3.11, and the 2022 security releases of 3.7-3.10,
   raise ValueError when formatting an integer of more than 4300 digits (a 32-bit column never delivers one).
   */
  function Decode(code: int): (text: string)
    ensures code in ProtocolVersions <==> IsVersionLabel(text)
    ensures code !in ProtocolVersions <==> HasUnknownForm(text)
    ensures HasUnknownForm(text) ==> ParseDecimal(UnknownPayload(text)) == Some(code)
  {
    if code in ProtocolVersions then
      ProtocolVersionsShape(code);
      ProtocolVersions[code]
    else
      var digits := IntToDecimal(code);
      var text := UnknownPrefix + digits + ")";
      assert UnknownPayload(text) == digits;
      ParseIntToDecimal(code);
      text
  }

  /** Every known label has the shape digit '.' digit, and so no fallback shape. */
  lemma ProtocolVersionsShape(code: int)
    requires code in ProtocolVersions
    ensures IsVersionLabel(ProtocolVersions[code])
    ensures !HasUnknownForm(ProtocolVersions[code])
  {
  }

  /** Searches codes for a key whose label is the given one. */
  function FindCode(text: string, codes: seq<int>): (r: Option<int>)
    requires forall i :: 0 <= i < |codes| ==> codes[i] in ProtocolVersions
    ensures r.Some? ==> r.value in codes && ProtocolVersions[r.value] == text
    ensures r.None? ==> forall i :: 0 <= i < |codes| ==> ProtocolVersions[codes[i]] != text
    decreases |codes|
  {
    if |codes| == 0 then None
    else if ProtocolVersions[codes[0]] == text then Some(codes[0])
    else FindCode(text, codes[1..])
  }

  /**
   The code a label was decoded from, if any: a known label gives its table
   key; a fallback label gives the integer written in it, provided that
   integer is not a known code (Decode never writes those in a fallback).
   */
  function Recover(text: string): Option<int> {
    match FindCode(text, KnownCodes)
    case Some(code) => Some(code)
    case None =>
      if HasUnknownForm(text) then
        match ParseDecimal(UnknownPayload(text))
        case Some(code) => if code in ProtocolVersions then None else Some(code)
        case None => None
      else None
  }

  /** KnownCodes lists exactly the keys of the table, each once. */
  lemma KnownCodesAreTheKeys()
    ensures forall code :: code in KnownCodes <==> code in ProtocolVersions
    ensures forall i, j :: 0 <= i < j < |KnownCodes| ==> KnownCodes[i] != KnownCodes[j]
  {
  }

  /** Distinct known codes have distinct labels. */
  lemma ProtocolVersionsInjective(a: int, b: int)
    requires a in ProtocolVersions && b in ProtocolVersions
    requires ProtocolVersions[a] == ProtocolVersions[b]
    ensures a == b
  {
  }

  /** Recover undoes Decode for every integer. */
  lemma RecoverDecode(code: int)
    ensures Recover(Decode(code)) == Some(code)
  {
    var text := Decode(code);
    KnownCodesAreTheKeys();
    if code in ProtocolVersions {
      var found := FindCode(text, KnownCodes);
      if found.Some? {
        ProtocolVersionsInjective(found.value, code);
      }
    } else {
      var found := FindCode(text, KnownCodes);
      if found.Some? {
        ProtocolVersionsShape(found.value);
        assert false;
      }
    }
  }

  /** Whatever Recover finds in a label, Decode turns back into that label. */
  lemma DecodeRecover(text: string)
    ensures Recover(text).Some? ==> Decode(Recover(text).value) == text
  {
    var found := FindCode(text, KnownCodes);
    if found.Some? {
      assert Recover(text) == found;
    } else if HasUnknownForm(text) {
      var payload := UnknownPayload(text);
      var parsed := ParseDecimal(payload);
      if parsed.Some? && parsed.value !in ProtocolVersions {
        assert Recover(text) == parsed;
        ParseDecimalIff(payload, parsed.value);
        assert text == UnknownPrefix + payload + ")";
      }
    }
  }

  /** A label and a code correspond exactly when Decode maps the code to the label. */
  lemma RecoverIff(text: string, code: int)
    ensures Recover(text) == Some(code) <==> Decode(code) == text
  {
    if Decode(code) == text {
      RecoverDecode(code);
    }
    if Recover(text) == Some(code) {
      DecodeRecover(text);
    }
  }

  /** Decode is injective: the label identifies the code it came from. */
  lemma DecodeInjective(a: int, b: int)
    requires Decode(a) == Decode(b)
    ensures a == b
  {
    RecoverDecode(a);
    RecoverDecode(b);
  }

  /** The six known codes and the fallback, stated with literal constants. */
  lemma DecodeTable(code: int)
    ensures code == 67239936 ==> Decode(code) == "4.2"
    ensures code == 117440512 ==> Decode(code) == "7.0"
    ensures code == 1895825409 ==> Decode(code) == "7.1"
    ensures code == 1913192450 ==> Decode(code) == "7.2"
    ensures code == 1930100739 ==> Decode(code) == "7.3"
    ensures code == 1946157060 ==> Decode(code) == "7.4"
    ensures code !in KnownCodes ==> Decode(code) == "unknown (" + IntToDecimal(code) + ")"
  {
    assert UnknownPrefix == "unknown (";
  }

  /** No known label begins with "unknown", so the two kinds of result never meet. */
  lemma KnownLabelsAreNotUnknown(code: int, other: int)
    requires code in ProtocolVersions && other !in ProtocolVersions
    ensures !(|Decode(code)| >= |UnknownWord| && Decode(code)[..|UnknownWord|] == UnknownWord)
    ensures Decode(code) != Decode(other)
  {
  }

  /** Concrete fallbacks: zero and a negative code. */
  lemma DecodeUnknownSmall()
    ensures Decode(0) == "unknown (0)"
    ensures Decode(-1) == "unknown (-1)"
  {
  }

  /** Concrete fallback: a six-digit code missing from the table. */
  lemma DecodeUnknownSixDigits()
    ensures Decode(123456) == "unknown (123456)"
  {
    IntToDecimalExamples();
    DecodeTable(123456);
  }

  /** Concrete fallback: a nine-digit code missing from the table. */
  lemma DecodeUnknownNineDigits()
    ensures Decode(999999999) == "unknown (999999999)"
  {
    IntToDecimalExamples();
    DecodeTable(999999999);
  }

  /** Each key is the big-endian reading of the byte string written beside it. */
  lemma KeysAreCommentWords()
    ensures CommentWords.Keys == ProtocolVersions.Keys
    ensures forall code :: code in CommentWords ==> |CommentWords[code]| == 4 && BE32(CommentWords[code]) == code
  {
  }

  /** Every known code fits the signed 32-bit int column that reports it, and is positive. */
  lemma KnownCodesFitInt32(code: int)
    requires code in ProtocolVersions
    ensures 0 < code < 0x8000_0000
  {
  }

  /** Splitting a known code into four big-endian bytes gives the bytes written beside it. */
  lemma KnownCodesSplitToCommentWords(code: int)
    requires code in ProtocolVersions
    ensures 0 <= code < WordLimit && ToBE32(code) == CommentWords[code]
  {
    KeysAreCommentWords();
    ToBE32OfBE32(CommentWords[code]);
  }
}
