/**
 * Field values of a roster document, Python truthiness, the text that
 * `csv.writer` emits for a value, and Python's `str.strip()`.
 */
module Values {

  /** The values the roster code stores in a document field: a CSV string,
      a Python bool, or None. */
  datatype Value = VStr(s: string) | VBool(b: bool) | VNull

  /** A stored document: field name to value (the storage `_id` is not modelled). */
  type Record = map<string, Value>

  datatype Option<T> = None | Some(value: T)

  /** Outcome of an operation that raises `ValueError(message)` on bad input. */
  datatype Result<T> = Ok(value: T) | Fail(message: string)

  /** The rows `csv.DictReader` yields: each row maps exactly the header's columns to cells. */
  predicate FromHeader(header: seq<string>, rows: seq<map<string, string>>)
  {
    forall i :: 0 <= i < |rows| ==> rows[i].Keys == set c | c in header
  }

  /** Python's truth value of a field value: `""`, `False` and `None` are false. */
  predicate Truthy(v: Value)
  {
    match v
    case VStr(s) => s != ""
    case VBool(b) => b
    case VNull => false
  }

  /** `rec.get(field, default)` */
  function Get(rec: Record, field: string, default: Value): (v: Value)
    ensures field in rec ==> v == rec[field]
    ensures field !in rec ==> v == default
  {
    if field in rec then rec[field] else default
  }

  /** What `csv.writer` writes for a value: `str(v)`, with None as the empty field. */
  function Render(v: Value): (text: string)
    ensures v.VStr? ==> text == v.s
    ensures v.VBool? ==> text == (if v.b then "True" else "False")
    ensures v.VNull? ==> text == ""
  {
    match v
    case VStr(s) => s
    case VBool(b) => if b then "True" else "False"
    case VNull => ""
  }

  /** One exported cell, `entry.get(field, "")` as written by `csv.writer`. */
  function Cell(rec: Record, field: string): (text: string)
    ensures field !in rec ==> text == ""
    ensures field in rec && rec[field].VStr? ==> text == rec[field].s
    ensures field in rec && rec[field] == VNull ==> text == ""
  {
    Render(Get(rec, field, VStr("")))
  }

  /** The characters Python's `str.isspace()` accepts, which `str.strip()` removes. */
  predicate IsSpace(c: char)
  {
    || ('\t' <= c <= '\r')
    || ('\U{1C}' <= c <= '\U{1F}')
    || c == ' ' || c == '\U{85}' || c == '\U{A0}' || c == '\U{1680}'
    || ('\U{2000}' <= c <= '\U{200A}')
    || c == '\U{2028}' || c == '\U{2029}' || c == '\U{202F}' || c == '\U{205F}'
    || c == '\U{3000}'
  }

  /** Every character is whitespace (the empty string included). */
  predicate IsBlank(s: string)
  {
    forall i :: 0 <= i < |s| ==> IsSpace(s[i])
  }

  /** No whitespace at either end: what `strip()` leaves. */
  predicate IsStripped(s: string)
  {
    s == [] || (!IsSpace(s[0]) && !IsSpace(s[|s| - 1]))
  }

  /** `s.lstrip()` */
  function TrimLeft(s: string): (r: string)
    ensures |r| <= |s|
  {
    if s != [] && IsSpace(s[0]) then TrimLeft(s[1..]) else s
  }

  /** `s.rstrip()` */
  function TrimRight(s: string): (r: string)
    ensures |r| <= |s|
  {
    if s != [] && IsSpace(s[|s| - 1]) then TrimRight(s[..|s| - 1]) else s
  }

  /** `lstrip()` removes a blank prefix and stops at a non-space character. */
  lemma {:induction false} TrimLeftSpec(s: string)
    ensures TrimLeft(s) == s[|s| - |TrimLeft(s)|..]
    ensures IsBlank(s[..|s| - |TrimLeft(s)|])
    ensures TrimLeft(s) == [] || !IsSpace(TrimLeft(s)[0])
  {
    if s != [] && IsSpace(s[0]) {
      var r := TrimLeft(s[1..]);
      TrimLeftSpec(s[1..]);
      assert s[..|s| - |r|] == [s[0]] + s[1..][..|s[1..]| - |r|];
    }
  }

  /** `rstrip()` removes a blank suffix and stops at a non-space character. */
  lemma {:induction false} TrimRightSpec(s: string)
    ensures TrimRight(s) == s[..|TrimRight(s)|]
    ensures IsBlank(s[|TrimRight(s)|..])
    ensures TrimRight(s) == [] || !IsSpace(TrimRight(s)[|TrimRight(s)| - 1])
  {
    if s != [] && IsSpace(s[|s| - 1]) {
      var r := TrimRight(s[..|s| - 1]);
      TrimRightSpec(s[..|s| - 1]);
      assert s[|r|..] == s[..|s| - 1][|r|..] + [s[|s| - 1]];
    }
  }

  /** Python's `s.strip()`: the string with leading and trailing whitespace removed. */
  function Trim(s: string): (r: string)
    ensures IsStripped(r)
    ensures r == [] <==> IsBlank(s)
  {
    var l := TrimLeft(s);
    TrimLeftSpec(s);
    TrimRightSpec(l);
    assert TrimRight(l) == [] ==> l == l[|TrimRight(l)|..];
    assert l != [] ==> s[|s| - |l|] == l[0];
    assert s == s[..|s| - |l|] + l;
    TrimRight(l)
  }

  /** What `strip()` keeps is the part of the string between a blank prefix and a
      blank suffix. */
  lemma TrimIsInfix(s: string)
    ensures Leading(s) + |Trim(s)| <= |s|
    ensures Trim(s) == s[Leading(s)..Leading(s) + |Trim(s)|]
    ensures IsBlank(s[..Leading(s)]) && IsBlank(s[Leading(s) + |Trim(s)|..])
  {
    var l := TrimLeft(s);
    var r := TrimRight(l);
    TrimLeftSpec(s);
    TrimRightSpec(l);
    assert l == s[Leading(s)..];
    assert r == [] ==> l == l[|r|..];
    assert s[Leading(s) + |r|..] == l[|r|..];
  }

  /** How many whitespace characters `strip()` removes from the front. */
  function Leading(s: string): (n: nat)
    ensures n <= |s|
  {
    |s| - |TrimLeft(s)|
  }

  /** Left-stripping a blank prefix followed by a non-space character drops exactly that prefix. */
  lemma {:induction false} TrimLeftPast(pre: string, rest: string)
    requires IsBlank(pre) && rest != [] && !IsSpace(rest[0])
    ensures TrimLeft(pre + rest) == rest
  {
    if pre != [] {
      assert (pre + rest)[1..] == pre[1..] + rest;
      TrimLeftPast(pre[1..], rest);
    }
  }

  /** Right-stripping a blank suffix preceded by a non-space character drops exactly that suffix. */
  lemma {:induction false} TrimRightPast(rest: string, post: string)
    requires IsBlank(post) && rest != [] && !IsSpace(rest[|rest| - 1])
    ensures TrimRight(rest + post) == rest
  {
    if post != [] {
      var s := rest + post;
      assert s[..|s| - 1] == rest + post[..|post| - 1];
      TrimRightPast(rest, post[..|post| - 1]);
    } else {
      assert rest + post == rest;
    }
  }

  /** `strip()` is exactly "drop the blank prefix and blank suffix around a stripped core". */
  lemma TrimOfPadded(pre: string, core: string, post: string)
    requires IsBlank(pre) && IsBlank(post) && IsStripped(core) && core != []
    ensures Trim(pre + core + post) == core
  {
    assert pre + core + post == pre + (core + post);
    TrimLeftPast(pre, core + post);
    TrimRightPast(core, post);
  }

  /** Stripping twice is stripping once. */
  lemma TrimIdempotent(s: string)
    ensures Trim(Trim(s)) == Trim(s)
  {
    var r := Trim(s);
    if r != [] {
      TrimLeftPast([], r);
      TrimRightPast(r, []);
      assert [] + r == r && r + [] == r;
    }
  }
}
