/** The part of Python's `str.format` that the templates of this package use:
    a replacement field `{d}` with a single decimal digit `d` is replaced by the
    `d`-th argument; every other character is copied. */
module PyFormat {

  /** The replacement field `{i}`. */
  function Field(i: nat): (f: string)
    requires i < 10
    ensures |f| == 3 && f[0] == '{' && f[2] == '}'
    ensures f[1] as int - '0' as int == i
  {
    "{" + [('0' as int + i) as char] + "}"
  }

  /** Text that holds no brace, so formatting copies it unchanged. */
  predicate Plain(s: string) {
    '{' !in s && '}' !in s
  }

  function Format(template: string, args: seq<string>): string
  {
    if |template| == 0 then ""
    else if |template| >= 3 && template[0] == '{' && '0' <= template[1] <= '9' && template[2] == '}'
            && (template[1] as int - '0' as int) < |args|
    then args[template[1] as int - '0' as int] + Format(template[3..], args)
    else [template[0]] + Format(template[1..], args)
  }

  lemma {:induction false} FormatPlainPrefix(pre: string, rest: string, args: seq<string>)
    requires Plain(pre)
    ensures Format(pre + rest, args) == pre + Format(rest, args)
  {
    if pre == [] {
      assert pre + rest == rest;
    } else {
      var t := pre + rest;
      assert t[1..] == pre[1..] + rest;
      assert forall c :: c in pre[1..] ==> c in pre;
      FormatPlainPrefix(pre[1..], rest, args);
      assert t[0] == pre[0] && pre[0] in pre;
      assert Format(t, args) == [t[0]] + Format(t[1..], args);
      assert [pre[0]] + pre[1..] == pre;
    }
  }

  lemma FormatPlain(s: string, args: seq<string>)
    requires Plain(s)
    ensures Format(s, args) == s
  {
    FormatPlainPrefix(s, "", args);
    assert s + "" == s;
  }

  lemma FormatField(pre: string, i: nat, post: string, args: seq<string>)
    requires Plain(pre) && i < 10 && i < |args|
    ensures Format(pre + Field(i) + post, args) == pre + args[i] + Format(post, args)
  {
    var t := Field(i) + post;
    assert pre + Field(i) + post == pre + t;
    FormatPlainPrefix(pre, t, args);
    assert t[3..] == post;
    assert Format(t, args) == args[i] + Format(t[3..], args);
  }

  /** A template with one field between two plain texts. */
  lemma FormatOneField(t: string, p0: string, i: nat, p1: string, args: seq<string>)
    requires Plain(p0) && Plain(p1) && i < 10 && i < |args|
    requires t == p0 + Field(i) + p1
    ensures Format(t, args) == p0 + args[i] + p1
  {
    FormatField(p0, i, p1, args);
    FormatPlain(p1, args);
  }

  /** A template with two fields among three plain texts. */
  lemma FormatTwoFields(t: string, p0: string, i: nat, p1: string, j: nat, p2: string, args: seq<string>)
    requires Plain(p0) && Plain(p1) && Plain(p2)
    requires i < 10 && i < |args| && j < 10 && j < |args|
    requires t == p0 + Field(i) + p1 + Field(j) + p2
    ensures Format(t, args) == p0 + args[i] + p1 + args[j] + p2
  {
    assert t == p0 + Field(i) + (p1 + Field(j) + p2);
    FormatField(p0, i, p1 + Field(j) + p2, args);
    FormatOneField(p1 + Field(j) + p2, p1, j, p2, args);
  }
}
