# hycohanz core in Dafny: the HFSS expression builder and the parameter marshaler

hycohanz drives the HFSS electromagnetic simulator through its COM automation
interface. Two pieces of it do not depend on HFSS and are modelled here:

- **`Expression`** (`hycohanz/expression.py`): an immutable value holding the
  text of an HFSS expression. Each Python arithmetic operator returns a new
  Expression whose text is a fixed `str.format` template filled with
  `str(self)` and `str(y)`. Nothing is evaluated or simplified. Old-style
  integer division (`__div__`, `__rdiv__`) raises `NotImplementedError`.
- **`collect_parameters_and_attributes`** (`hycohanz/utils.py`): flattens an
  ordered parameter mapping into `["NAME:<name>", "<key>:=", value, ...]`.
  Keys have `_` turned into spaces. Expression values are replaced by their
  text. Values that are not float, str, int or bool are dropped with their
  key. It also flattens an attribute mapping into
  `["NAME:Attributes", "<key>:=", value, ...]`, with keys and values as they
  are. When the attributes argument has no `.items()`, that list is `[]`.

Files:

- `PyFormat.dfy` models the part of Python's `str.format` that the templates use:
  `{d}` fields with one digit. Lemmas instantiate a template with one or two
  fields between plain texts.
- `Parens.dfy` defines parenthesis depth and balance. It proves that balance
  survives concatenation and wrapping. It also proves that the first
  parenthesised group of a text is unique. The operators' read-back lemmas rest
  on that fact.
- `Expression.dfy` holds module `Expressions`. The datatype `Expression` has
  one member function per operator. The binary operators are defined by
  `Format(<template>, [str(self), str(y)])`, and `abs` and negation by
  `Format(<template>, [str(self)])`. Each `ensures` states the resulting text.
  The two refused divisions use no template: they return the raised error. `BinOp`, `Forward` and `Reflected` group the five binary
  operators so that lemmas can cover all of them at once.
- `Utils.dfy` holds module `Utils`. `CollectParametersAndAttributes` is the
  imperative loop of the source. It is proved equal to the recursive
  specifications `ParameterList` and `AttributeList`, and lemmas state their
  shape.

An operand is `Operand.Expr(e)` for an Expression or `Operand.Literal(text)`
for a Python number or string. `text` is what `str()` makes of it. A mapping is
a `seq<(string, Value)>` in iteration order. The attributes argument is
`Items(seq)` or `NoItems` (an object without `.items()`). Sequences are values in
Dafny. So the marshaler, which only reads its arguments and builds fresh lists,
has no `modifies` clause, and its inputs are unchanged by construction.

Points where the code's behaviour is easy to misread:

- The refused division raises Python's built-in `NotImplementedError`, not an
  exception type of the package's own.
- The refusal is on `__div__`/`__rdiv__`. Python 2 calls these for `/` when
  true division is off. Python 3 calls `__floordiv__` for `//`, and the class
  does not define it. So a Python 3 `//` on an Expression fails with Python's
  own `TypeError`, outside the class. The model covers the two methods the
  class defines.
- Reflected true division writes `Y / (S)`: the left operand has no
  parentheses, unlike every other binary form. `ReflectedSwaps` proves that
  this is the only reflected operator that differs from its forward form with
  swapped operands. The read-back lemmas therefore exclude it. A literal left
  operand such as the string `"1 + 2"` gives `1 + 2 / (S)`, which HFSS groups
  as `1 + (2 / (S))`.

## Model

| member | source | states |
|---|---|---|
| Expressions.StrRoundTrip | hycohanz/expression.py:37-44 | constructing from `x` keeps `str(x)`; `str()` and `repr()` give that text back unchanged; constructing from an Expression gives an Expression with the same text |
| Expressions.Construct | hycohanz/expression.py:37-38 | `Expression(x)` stores `str(x)`; built from an Expression it has that Expression's text (see also `StrRoundTrip`) |
| Expressions.Expression.Str | hycohanz/expression.py:40-41 | `str(self)` returns the stored text, from which the same Expression is rebuilt |
| Expressions.Expression.Repr | hycohanz/expression.py:43-44 | `repr(self)` is the same text as `str(self)` |
| Expressions.Text | hycohanz/expression.py:50-52 | `str(y)` of an operand: a literal's own text, or an Expression's stored text, from which that Expression is rebuilt |
| Expressions.Expression.Abs | hycohanz/expression.py:46-48 | filling the template `abs({0})` gives `abs(S)` |
| Expressions.Expression.Add | hycohanz/expression.py:50-52 | filling `({0}) + ({1})` gives `(S) + (Y)` |
| Expressions.Expression.RAdd | hycohanz/expression.py:54-55 | filling `({1}) + ({0})` gives `(Y) + (S)` |
| Expressions.Expression.Sub | hycohanz/expression.py:57-59 | `(S) - (Y)` |
| Expressions.Expression.RSub | hycohanz/expression.py:61-62 | `(Y) - (S)` |
| Expressions.Expression.Mul | hycohanz/expression.py:64-66 | `(S) * (Y)` |
| Expressions.Expression.RMul | hycohanz/expression.py:68-70 | `(Y) * (S)` |
| Expressions.Expression.TrueDiv | hycohanz/expression.py:72-74 | `(S) / (Y)` |
| Expressions.Expression.RTrueDiv | hycohanz/expression.py:76-78 | filling `{1} / ({0})` gives `Y / (S)`, with the left operand bare |
| Expressions.Expression.Div | hycohanz/expression.py:80-83 | always raises `NotImplementedError` with the source's message, and gives no Expression |
| Expressions.Expression.RDiv | hycohanz/expression.py:85-88 | always raises `NotImplementedError` with the source's message, and gives no Expression |
| Expressions.Expression.Neg | hycohanz/expression.py:90-92 | `-(S)` |
| Expressions.Expression.Pow | hycohanz/expression.py:94-96 | power is written `^`: `(S) ^ (Y)` |
| Expressions.Expression.RPow | hycohanz/expression.py:98-100 | `(Y) ^ (S)` |
| Expressions.ForwardText | hycohanz/expression.py:50-100 | every forward binary operator gives `(S) op (Y)` with its HFSS symbol `+ - * / ^` |
| Expressions.ReflectedSwaps | hycohanz/expression.py:54-78 | a reflected operator equals the forward one with swapped operands exactly when it is not true division |
| Expressions.ForwardReadBack | hycohanz/expression.py:50-100 | with a balanced left operand, the text of `self op y` determines the operator, `self` and `str(y)`: nesting never needs precedence to read back |
| Expressions.ReflectedReadBack | hycohanz/expression.py:54-100 | the same for `y op self` (except `y / self`) when `str(y)` is balanced |
| Expressions.UnaryReadBack | hycohanz/expression.py:46-48 | `-(S)` and `abs(S)` determine `S`, and negation, `abs` and every binary form except `y / self` never give the same text |
| Expressions.ReflectedOverMeetsNeg | hycohanz/expression.py:76-78 | `y / self` is that exception: `"-(p)" / Expression("q")` and `-Expression("p) / (q")` are both `-(p) / (q)` |
| Expressions.ForwardKeepsOperands | hycohanz/expression.py:50-100 | no simplification: the result holds both operand texts verbatim and is strictly longer than each |
| Expressions.ReflectedKeepsOperands | hycohanz/expression.py:54-100 | the same for the reflected operators, `y / self` included |
| Expressions.UnaryKeepsOperand | hycohanz/expression.py:46-48 | the same for `abs` and negation |
| Expressions.ForwardBalanced | hycohanz/expression.py:50-100 | balanced operand texts give a balanced result |
| Expressions.ReflectedBalanced | hycohanz/expression.py:54-100 | the same for the reflected operators |
| Expressions.UnaryBalanced | hycohanz/expression.py:46-48 | the same for `abs` and negation |
| Expressions.LengthExample | hycohanz/expression.py:102-108 | with `a = Expression('0.010in')` and `b = a + 2`, the texts of `b`, `(a + b) / a`, `a / (a + b)`, `(a + b) * a` and `a * (a + b)` |
| Utils.Sentinel | hycohanz/utils.py:18 | `"NAME:{0}".format(name)` is `"NAME:" + name` |
| Utils.Tag | hycohanz/utils.py:32 | `"{0}:=".format(key)` is `key + ":="` |
| Utils.ReplaceUnderscores | hycohanz/utils.py:32 | same length; every `_` becomes a space and every other character stays |
| Utils.ReplaceUnderscoresSettles | hycohanz/utils.py:32 | rewritten keys hold no `_`; rewriting is idempotent and leaves `_`-free keys alone |
| Utils.CollectParametersAndAttributes | hycohanz/utils.py:9-40 | the loop and the attribute branch build exactly `ParameterList(parameters, parametersName)` and `AttributeList(attributes)` |
| Utils.KeptPrimitive | hycohanz/utils.py:21-25 | entries that reach the list are no more than the mapping's, and their values are float, str, int or bool |
| Utils.KeptAt | hycohanz/utils.py:19-25 | an Expression or primitive entry is kept, after the entries kept before it, with an Expression replaced by its text |
| Utils.ParameterListLayout | hycohanz/utils.py:18-32 | length `1 + 2 * kept`; first the sentinel `"NAME:" + parametersName`; then, per kept entry in order, its key with `_` as space plus `:=`, then its value |
| Utils.ParameterEntryPlace | hycohanz/utils.py:19-32 | an accepted entry's tag and converted value sit at positions `1 + 2c` and `2 + 2c`, where `c` counts the entries kept before it |
| Utils.UnsupportedDropped | hycohanz/utils.py:24-25 | an entry of unsupported type emits neither key nor value: the list is the same without it |
| Utils.ParameterListOrder | hycohanz/utils.py:19-32 | mapping order is kept: the list of a prefix of the mapping is a prefix of the list |
| Utils.ParameterListWireShape | hycohanz/utils.py:18-32 | every element is a float, str, int or bool, never an Expression; every tag ends in `:=` and holds no `_` |
| Utils.AttributeListLayout | hycohanz/utils.py:34-38 | without `.items()` the list is `[]`; otherwise `"NAME:Attributes"`, then each key plus `:=` untranslated and each value unfiltered and unconverted, in order |
| Utils.EmptyAttributes | hycohanz/utils.py:34-38 | an empty mapping gives `["NAME:Attributes"]`, a missing `.items()` gives `[]` |
| Utils.KeyExample | hycohanz/utils.py:32 | `max_delta_s` becomes the tag `max delta s:=` |
| Utils.MarshalExample | hycohanz/utils.py:18-32 | `start_freq: 1.0, label: "x", skip_me: <list>` with name `P` gives `["NAME:P", "start freq:=", 1.0, "label:=", "x"]` |
| Utils.ExpressionValueExample | hycohanz/utils.py:21-23 | an Expression value `2*w` arrives as the string `"2*w"` |
| Utils.AttributeExample | hycohanz/utils.py:34-36 | `Color: "red"` gives `["NAME:Attributes", "Color:=", "red"]` |

## Left out

- Python's `str()` of numbers and booleans: a literal operand carries its text (`Operand.Literal`), so float formatting is not modelled.
- Python's `str.format` is modelled only for `{d}` fields with one digit. Escaped braces, named fields, format specs and the errors `format` raises on malformed templates are not modelled. No template in this package uses them.
- Operator dispatch: Python picks `__add__` or `__radd__` from the operand types. The model offers both and lets the caller choose. Under the real dispatch the reflected forms see only non-Expression left operands.
- Python 3 `//` fails in Python itself, since the class defines no `__floordiv__`. That is not part of the class and is not modelled.
- Python's `bool` is a subclass of `int`. Both kinds are kept alike, so `Value` keeps them as separate cases.
- The marshaler's type tests follow Python 3. Under Python 2, `unicode` strings and `long` integers fail `isinstance(v, str)` and `isinstance(v, int)`, so `hycohanz/utils.py:24-25` drops them. The model has one `Value.Str` and one `Value.Int`, which are always kept.
- Expressions are compared by their text: two `Expression` values are equal when they hold the same text. The Python class defines no `__eq__`, so Python compares two distinct instances by identity.
- Keys are strings, and a mapping is any sequence of pairs. A Python dict also guarantees that keys are distinct. The lemmas hold without that guarantee.
- `hfss_com_wrapper` (`hycohanz/utils.py:43-57`): dynamic dispatch via `getattr` to a COM object.
- `hycohanz/appobject.py`, `hycohanz/reporter.py`, `hycohanz/analysis_setup.py`: wrappers whose purpose is to call the closed HFSS application. Their local logic is not modelled either: the argument checks in `check_setup` and `check_sweep` (`hycohanz/reporter.py:202-243`), which raise when a setup or sweep name is not among those the HFSS design reports, and the building of argument strings such as `str(startvalue) + "Hz"` in `hycohanz/analysis_setup.py`.
- The `warnings.simplefilter` calls and the printing in the demo block. The demo's values are the test vector in `LengthExample`.
