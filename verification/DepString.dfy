/** Dependencies as text (klpm_dep_from_string and klpm_dep_compute_string in deps.c). */
module DepString {
  import opened Text
  import opened Package

  /** The index of the first ": " at or after i, or |s|. */
  function FindDelim(s: string, i: nat): (p: nat)
    requires i <= |s|
    ensures i <= p <= |s|
    ensures p < |s| ==> p + 1 < |s| && s[p] == ':' && s[p + 1] == ' '
    ensures forall k :: i <= k < p && k + 1 < |s| ==> !(s[k] == ':' && s[k + 1] == ' ')
    decreases |s| - i
  {
    if i + 1 >= |s| then |s|
    else if s[i] == ':' && s[i + 1] == ' ' then i
    else FindDelim(s, i + 1)
  }

  function Op(mod: Mod): string {
    match mod
    case Any => ""
    case Ge => ">="
    case Le => "<="
    case Eq => "="
    case Lt => "<"
    case Gt => ">"
  }

  /** A comparator and where it starts. */
  datatype Found = Found(at: nat, mod: Mod)

  /** The comparator of the part before the description. */
  function FindOp(body: string): (r: Found)
    ensures r.at <= |body| && (r.mod.Any? <==> r.at == |body|)
    ensures r.at + |Op(r.mod)| <= |body| && body[r.at..r.at + |Op(r.mod)|] == Op(r.mod)
  {
    var lt := IndexFrom(body, '<', 0);
    var gt := IndexFrom(body, '>', 0);
    var eq := IndexFrom(body, '=', 0);
    if lt < |body| then Found(lt, if lt + 1 < |body| && body[lt + 1] == '=' then Le else Lt)
    else if gt < |body| then Found(gt, if gt + 1 < |body| && body[gt + 1] == '=' then Ge else Gt)
    else if eq < |body| then Found(eq, Eq)
    else Found(|body|, Any)
  }

  function ParseBody(body: string, desc: Option<string>): Dep {
    var Found(ptr, mod) := FindOp(body);
    Dep(body[..ptr], mod, if mod.Any? then None else Some(body[ptr + |Op(mod)|..]), desc)
  }

  /** klpm_dep_from_string */
  function DepFromString(s: string): Dep {
    var p := FindDelim(s, 0);
    ParseBody(s[..p], if p < |s| then Some(s[p + 2..]) else None)
  }

  function Body(d: Dep): string {
    d.name + Op(d.mod) + if !d.mod.Any? && d.version.Some? then d.version.value else ""
  }

  /** klpm_dep_compute_string */
  function DepToString(d: Dep): string { Body(d) + if d.desc.Some? then ": " + d.desc.value else "" }

  /** Printing a parsed dependency gives back the string, for every string. */
  lemma PrintParsed(s: string)
    ensures DepToString(DepFromString(s)) == s
  {
    hide FindDelim, ParseBody, Body;
    var p := FindDelim(s, 0);
    BodyOfParsed(s[..p], if p < |s| then Some(s[p + 2..]) else None);
    if p < |s| { assert s == s[..p] + ": " + s[p + 2..]; }
  }

  lemma BodyOfParsed(body: string, desc: Option<string>)
    ensures Body(ParseBody(body, desc)) == body && ParseBody(body, desc).desc == desc
  {
    hide FindOp, Op;
    var Found(ptr, mod) := FindOp(body);
    var n := ptr + |Op(mod)|;
    assert mod.Any? ==> Op(mod) == "" by { NoOp(); }
    assert body == body[..ptr] + body[ptr..n] + body[n..];
  }

  lemma NoOp()
    ensures Op(Any) == ""
  {
  }

  ghost predicate NoDelim(s: string) { forall k :: 0 <= k && k + 1 < |s| ==> !(s[k] == ':' && s[k + 1] == ' ') }

  predicate Lacks(s: string, c: char) { forall k :: 0 <= k < |s| ==> s[k] != c }

  /** The dependencies that survive a trip through text: no delimiter in name or version, a
      version exactly with a comparator, and no character that would be read as an earlier one. */
  ghost predicate WellFormed(d: Dep) {
    && (d.mod.Any? <==> d.version.None?)
    && NoDelim(d.name) && (d.version.Some? ==> NoDelim(d.version.value))
    && Lacks(d.name, '<')
    && (d.mod in {Gt, Ge, Eq, Any} ==> Lacks(d.name, '>'))
    && (d.mod in {Eq, Any} ==> Lacks(d.name, '='))
    && (d.mod in {Gt, Ge, Eq} ==> Lacks(d.version.value, '<'))
    && (d.mod.Eq? ==> Lacks(d.version.value, '>'))
    && (d.mod in {Lt, Gt} ==> d.version.value == [] || d.version.value[0] != '=')
  }

  lemma {:induction false} IndexIs(s: string, c: char, i: nat, p: nat)
    requires i <= p <= |s| && (forall k :: i <= k < p ==> s[k] != c) && (p < |s| ==> s[p] == c)
    ensures IndexFrom(s, c, i) == p
    decreases p - i
  {
    if i < p { IndexIs(s, c, i + 1, p); }
  }

  lemma FindDelimIs(s: string, p: nat)
    requires p <= |s| && (p < |s| ==> p + 1 < |s| && s[p] == ':' && s[p + 1] == ' ')
    requires forall k :: 0 <= k < p && k + 1 < |s| ==> !(s[k] == ':' && s[k + 1] == ' ')
    ensures FindDelim(s, 0) == p
  {
  }

  /** The comparator is found where it was printed. */
  lemma FindsPrintedOp(d: Dep)
    requires WellFormed(d)
    ensures FindOp(Body(d)) == Found(|d.name|, d.mod)
  {
    hide IndexFrom, FindOp, Lacks;
    var body, n := Body(d), |d.name|;
    var version := if d.version.Some? then d.version.value else "";
    assert body == d.name + (Op(d.mod) + version);
    match d.mod {
    case Any =>
      assert body == d.name;
      FindsChar(d.name, "", '<'); FindsChar(d.name, "", '>'); FindsChar(d.name, "", '=');
    case Le | Lt =>
      FindsChar(d.name, Op(d.mod) + version, '<');
    case Ge | Gt =>
      LacksAll(d.name, Op(d.mod), version, '<');
      FindsChar(body, "", '<'); FindsChar(d.name, Op(d.mod) + version, '>');
    case Eq =>
      LacksAll(d.name, "=", version, '<'); LacksAll(d.name, "=", version, '>');
      FindsChar(body, "", '<'); FindsChar(body, "", '>'); FindsChar(d.name, "=" + version, '=');
    }
    OpAt(body, d.name, d.mod, version);
  }

  lemma FindsChar(a: string, b: string, c: char)
    requires Lacks(a, c) && (b != [] ==> b[0] == c)
    ensures IndexFrom(a + b, c, 0) == |a|
    ensures b == [] ==> IndexFrom(a, c, 0) == |a|
  {
    hide IndexFrom;
    IndexIs(a + b, c, 0, |a|);
    if b == [] { IndexIs(a, c, 0, |a|); }
  }

  lemma LacksAll(a: string, op: string, b: string, c: char)
    requires Lacks(a, c) && Lacks(b, c) && op in {">=", ">", "="} && (c == '<' || (c == '>' && op == "="))
    ensures Lacks(a + (op + b), c)
  {
  }

  /** With each comparator found where it stands, the right one is chosen. */
  lemma OpAt(body: string, name: string, mod: Mod, version: string)
    requires body == name + (Op(mod) + version) && (mod.Any? ==> version == "")
    requires mod in {Lt, Gt} ==> version == [] || version[0] != '='
    requires mod in {Lt, Le} ==> IndexFrom(body, '<', 0) == |name|
    requires mod !in {Lt, Le} ==> IndexFrom(body, '<', 0) == |body|
    requires mod in {Gt, Ge} ==> IndexFrom(body, '>', 0) == |name|
    requires mod in {Eq, Any} ==> IndexFrom(body, '>', 0) == |body|
    requires mod in {Eq, Any} ==> IndexFrom(body, '=', 0) == |name|
    ensures FindOp(body) == Found(|name|, mod)
  {
    hide IndexFrom;
    var n := |name|;
    if mod in {Le, Ge} { assert body[n + 1] == '='; }
    if mod in {Lt, Gt} && version != [] { assert body[n + 1] == version[0]; }
  }

  lemma BodyNoDelim(d: Dep)
    requires WellFormed(d)
    ensures NoDelim(Body(d))
  {
    var body, n, m := Body(d), |d.name|, |d.name| + |Op(d.mod)|;
    forall k | 0 <= k && k + 1 < |body|
      ensures !(body[k] == ':' && body[k + 1] == ' ')
    {
      if k + 1 < n { assert body[k] == d.name[k] && body[k + 1] == d.name[k + 1]; }
      else if k < n { assert !d.mod.Any? ==> body[k + 1] == Op(d.mod)[0]; }
      else if k < m { assert body[k] == Op(d.mod)[k - n]; }
      else { assert body[k] == d.version.value[k - m] && body[k + 1] == d.version.value[k + 1 - m]; }
    }
  }

  /** Parsing a printed well-formed dependency gives back the dependency. */
  lemma ParsePrinted(d: Dep)
    requires WellFormed(d)
    ensures DepFromString(DepToString(d)) == d
  {
    hide FindDelim, FindOp;
    var s, body := DepToString(d), Body(d);
    BodyNoDelim(d);
    assert s[..|body|] == body;
    DelimAfterBody(body, d.desc);
    FindsPrintedOp(d);
    ParsesBack(d);
    if d.desc.Some? { assert s[|body| + 2..] == d.desc.value; }
  }

  lemma DelimAfterBody(body: string, desc: Option<string>)
    requires NoDelim(body)
    ensures FindDelim(body + (if desc.Some? then ": " + desc.value else ""), 0) == |body|
  {
    hide FindDelim;
    var s := body + if desc.Some? then ": " + desc.value else "";
    if desc.Some? { assert s[|body|] == ':' && s[|body| + 1] == ' '; }
    forall k | 0 <= k < |body| && k + 1 < |s|
      ensures !(s[k] == ':' && s[k + 1] == ' ')
    {
      if k + 1 < |body| { assert body[k] == s[k] && body[k + 1] == s[k + 1]; }
    }
    FindDelimIs(s, |body|);
  }

  lemma ParsesBack(d: Dep)
    requires WellFormed(d) && FindOp(Body(d)) == Found(|d.name|, d.mod)
    ensures ParseBody(Body(d), d.desc) == d
  {
    hide FindOp, Op;
    var body, n := Body(d), |d.name| + |Op(d.mod)|;
    assert body[..|d.name|] == d.name;
    if !d.mod.Any? { assert body[n..] == d.version.value; }
  }

  /** Whatever parsing yields is well-formed. */
  lemma ParsedWellFormed(s: string)
    ensures WellFormed(DepFromString(s))
  {
    var p := FindDelim(s, 0);
    var body := s[..p];
    var Found(ptr, mod) := FindOp(body);
    assert NoDelim(body);
    assert NoDelim(body[..ptr]) && NoDelim(body[ptr + |Op(mod)|..]);
    EarlierComparators(body);
  }

  lemma EarlierComparators(body: string)
    ensures var Found(ptr, mod) := FindOp(body);
            var name, version := body[..ptr], body[ptr + |Op(mod)|..];
            && Lacks(name, '<')
            && (mod in {Gt, Ge, Eq, Any} ==> Lacks(name, '>'))
            && (mod in {Eq, Any} ==> Lacks(name, '='))
            && (mod in {Gt, Ge, Eq} ==> Lacks(version, '<'))
            && (mod.Eq? ==> Lacks(version, '>'))
            && (mod in {Lt, Gt} ==> version == [] || version[0] != '=')
  {
  }

  /** Text keeps a dependency exactly when it is well-formed. */
  lemma KeptByTextIff(d: Dep)
    ensures DepFromString(DepToString(d)) == d <==> WellFormed(d)
  {
    if WellFormed(d) { ParsePrinted(d); }
    ParsedWellFormed(DepToString(d));
  }
}
