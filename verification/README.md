# TDS protocol version decoder

A Dafny model of `tds_version` from `check_tds_protocol_version.py`, a utility
that asks SQL Server which Tabular Data Stream (TDS) protocol version the
current session uses. The server reports the version as an integer
(`protocol_version` of `sys.dm_exec_connections`). The function looks that
integer up in a fixed table of six known codes, labelled "4.2" to "7.4". Any
other integer yields the label `unknown (<code>)`, with the code in decimal.
Codes are modelled as unbounded integers, and the fallback gives a label for
all of them. The one exception in Python is listed under "Left out".

The model is four modules:

- `Wrappers`: the `Option` type used by the parsers.
- `Decimal`: the decimal text Python writes for an integer (`IntToDecimal`: a
  '-' before negatives, no leading zeros). It also has a strict parser
  (`ParseDecimal`) that accepts exactly the texts the printer can produce.
- `Word32`: four-byte words read in big-endian order (`BE32`) and the inverse
  split (`ToBE32`), with `Byte` as a newtype of the integers 0..255.
- `TdsVersion`: the table `ProtocolVersions` and the keys in their written
  order (`KnownCodes`). `CommentWords` holds the byte string written beside
  each entry. `Decode` is the lookup with its fallback. `Recover` is a partner
  function that reads a label back into the code it came from.

The fetched scalar is the argument of `Decode`. The connection, the cursor
and the query are not modelled. Because `Decode` is a pure function, identical
codes always give identical labels.

The central result is `TdsVersion.RecoverIff`: `Recover(label) == Some(code)`
holds exactly when `Decode(code) == label`. So no information is lost. A known
label names one table key, and a fallback label carries its code in a form
that parses back, negative codes included.

## Model

| member | source | states |
|---|---|---|
| TdsVersion.Decode | check_tds_protocol_version.py:31-42 | Every integer gets a label and never an error (see "Left out" for Python's digit limit). The label has the digit-dot-digit shape exactly when the code is a table key. It has the `unknown (...)` shape exactly when the code is not a key, and then the text inside the parentheses parses back to the code. |
| TdsVersion.DecodeTable | check_tds_protocol_version.py:31-42 | The six codes 67239936, 117440512, 1895825409, 1913192450, 1930100739 and 1946157060 decode to "4.2", "7.0", "7.1", "7.2", "7.3" and "7.4". Every other integer decodes to "unknown (" + its decimal text + ")". |
| TdsVersion.DecodeUnknownSmall | check_tds_protocol_version.py:42 | 0 decodes to "unknown (0)" and -1 decodes to "unknown (-1)". |
| TdsVersion.DecodeUnknownSixDigits | check_tds_protocol_version.py:42 | 123456 decodes to "unknown (123456)". |
| TdsVersion.DecodeUnknownNineDigits | check_tds_protocol_version.py:42 | 999999999 decodes to "unknown (999999999)". |
| TdsVersion.ProtocolVersionsShape | check_tds_protocol_version.py:31-38 | Every label in the table is one digit, '.', one digit, so none has the fallback shape. |
| TdsVersion.ProtocolVersionsInjective | check_tds_protocol_version.py:31-38 | Two table keys with the same label are the same key. |
| TdsVersion.KnownCodesAreTheKeys | check_tds_protocol_version.py:31-38 | The key list in written order holds exactly the table's keys, with no repeats. |
| TdsVersion.KnownLabelsAreNotUnknown | check_tds_protocol_version.py:31-42 | The label of a known code does not begin with "unknown". It differs from the label of every unknown code. |
| TdsVersion.FindCode | check_tds_protocol_version.py:31-38 | Reverse lookup over a list of keys. When it finds a key, that key is in the list and has the given label. When it finds none, no key in the list has that label. |
| TdsVersion.RecoverDecode | check_tds_protocol_version.py:31-42 | Reading back the label of any integer gives that integer. |
| TdsVersion.DecodeRecover | check_tds_protocol_version.py:31-42 | Whenever a label reads back to a code, decoding that code gives the same label. |
| TdsVersion.RecoverIff | check_tds_protocol_version.py:31-42 | A label reads back to a code exactly when the code decodes to that label. |
| TdsVersion.DecodeInjective | check_tds_protocol_version.py:31-42 | Two integers with the same label are equal. |
| TdsVersion.KeysAreCommentWords | check_tds_protocol_version.py:32-37 | The commented byte strings belong to exactly the table's keys. Each is four bytes long, and each key is the big-endian reading of its own bytes. |
| TdsVersion.KnownCodesFitInt32 | check_tds_protocol_version.py:31-41 | Every key is positive and below 2^31, so it fits the signed 32-bit column that reports it. |
| TdsVersion.KnownCodesSplitToCommentWords | check_tds_protocol_version.py:32-37 | Every key is an unsigned 32-bit value, and splitting it into four big-endian bytes gives exactly the bytes in its comment. |
| Decimal.NatToDecimal | check_tds_protocol_version.py:42 | The decimal text of a natural number is nonempty and all digits. It starts with '0' only for zero, and zero's text is the single character "0". |
| Decimal.IntToDecimal | check_tds_protocol_version.py:42 | The text that `format` writes for an integer is a canonical numeral. It begins with '-' exactly when the integer is negative. |
| Decimal.IntToDecimalExamples | check_tds_protocol_version.py:42 | The text `format` writes for 0, -1, 123456 and 999999999 is "0", "-1", "123456" and "999999999". |
| Decimal.ParseIntToDecimal | check_tds_protocol_version.py:42 | Parsing the printed text of any integer gives that integer back, negative integers included. |
| Decimal.IntToDecimalOfParse | check_tds_protocol_version.py:42 | Printing the integer a text parses to gives back the same text. |
| Decimal.ParseDecimalIff | check_tds_protocol_version.py:42 | A text parses to n exactly when it is the printed text of n. |
| Word32.BE32 | check_tds_protocol_version.py:32-37 | A four-byte word read big-endian is an unsigned 32-bit value. |
| Word32.ToBE32OfBE32 | check_tds_protocol_version.py:32-37 | Packing four bytes and splitting the result gives the same bytes back. |
| Word32.BE32OfToBE32 | check_tds_protocol_version.py:32-37 | Splitting an unsigned 32-bit value into bytes and packing them gives the value back. |

## Left out

- TdsVersion.Decode: codes are unbounded integers, and the fallback gives a label for codes of any length. Python 3.11, and the 2022 security releases of 3.7–3.10, raise ValueError in the fallback for codes over 4300 digits, because that is the default limit on int-to-str conversion. The 32-bit `protocol_version` column cannot deliver such a code.

- The ODBC connection, cursor creation, the SQL text and `fetchval` (check_tds_protocol_version.py:39-41) are left out. They are a foreign database call, so the fetched integer is a parameter instead.
- If `fetchval` returns `None`, the source yields "unknown (None)". This case is left out because whether it can happen depends on the database library, which is not part of this model.
- The `__main__` block (check_tds_protocol_version.py:45-67) is left out. It reads credentials from the environment, builds the connection string, connects, prints driver metadata and closes the connection. All of that is I/O.
- The model has no general formula from codes to labels. The source keeps its table as literal constants, and so does the model. Only the link between each key and its commented bytes is proved.
- Decimal.ParseDecimal is stricter than Python's `int()`. It rejects signs other than a single leading '-', as well as spaces, underscores, leading zeros and "-0". It exists only as the inverse of the printer, so it accepts exactly the texts the printer writes.
