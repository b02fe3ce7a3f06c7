/** The -f option of vis_init: the output format named by the prefix of its
    argument, tried in the order dot, netjson, jsondoc, json. */
module Options {
  import opened VisTypes
  import opened CText

  /** The output formats the client can be asked for. */
  datatype OutputFormat = Dot | NetJson | JsonDoc | Json

  /** The format chosen for the argument of -f; None when no prefix
      matches, where the program prints its usage and exits. Only the
      prefixes "dot", "netjson" and "json" matter: "jsondoc" starts with
      "json". */
  function SelectFormat(arg: string): (r: Option<OutputFormat>)
    ensures r.Some? <==> StrNEq(arg, "dot", 3) || StrNEq(arg, "netjson", 7) || StrNEq(arg, "json", 4)
  {
    if StrNEq(arg, "dot", 3) then Some(Dot)
    else if StrNEq(arg, "netjson", 7) then Some(NetJson)
    else if StrNEq(arg, "jsondoc", 7) then Some(JsonDoc)
    else if StrNEq(arg, "json", 4) then Some(Json)
    else None
  }

  /** `s` starts with `p`. */
  predicate StartsWith(s: string, p: string)
  {
    |s| >= |p| && s[..|p|] == p
  }

  /** The choice in terms of prefixes: each format is selected exactly for
      the arguments that start with its name, except that an argument
      starting with "jsondoc" selects jsondoc and not json. Anything after
      the name is ignored ("dotty" selects dot). */
  lemma SelectFormatByPrefix(arg: string)
    ensures SelectFormat(arg) == Some(Dot) <==> StartsWith(arg, "dot")
    ensures SelectFormat(arg) == Some(NetJson) <==> StartsWith(arg, "netjson")
    ensures SelectFormat(arg) == Some(JsonDoc) <==> StartsWith(arg, "jsondoc")
    ensures SelectFormat(arg) == Some(Json) <==> StartsWith(arg, "json") && !StartsWith(arg, "jsondoc")
    ensures SelectFormat(arg).None? <==>
      !StartsWith(arg, "dot") && !StartsWith(arg, "netjson") && !StartsWith(arg, "json")
  {
    StrNEqPrefix(arg, "dot");
    StrNEqPrefix(arg, "netjson");
    StrNEqPrefix(arg, "jsondoc");
    StrNEqPrefix(arg, "json");
    if StartsWith(arg, "jsondoc") {
      assert arg[..4] == arg[..7][..4];
    }
    if StartsWith(arg, "dot") {
      assert arg[0] == 'd';
    }
    if StartsWith(arg, "netjson") {
      assert arg[0] == 'n';
    }
    if StartsWith(arg, "json") {
      assert arg[0] == 'j';
    }
  }
}
