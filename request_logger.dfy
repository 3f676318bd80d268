/** Route-info inference of the request-logging middleware: from the matched route's
    handler, or failing that from the request path, guess the controller and action
    that serve a request, for the "Processed by Controller#action as format" log line. */
module RequestLogger {
  import opened Wrappers
  import opened JsString

  /** What `ctx.route.handler` holds, as far as inference is concerned. */
  datatype Handler =
    | Absent                      // no route, or a handler that is null or undefined
    | Named(name: string)         // a string handler such as "PagesController.show"
    | Tuple(items: seq<string>)   // an array handler; each item as `String(item)` renders it
    | Other                       // any other value: an object, a function

  datatype RouteInfo = RouteInfo(controller: string, action: string, format: string)

  // ---------------------------------------------------------------------------
  // Capitalising a name

  /** `toUpperCase` on one character, for the ASCII letters. */
  function UpperAscii(c: char): (u: char)
    ensures 'a' <= c <= 'z' ==> 'A' <= u <= 'Z' && u as int == c as int - 32
    ensures !('a' <= c <= 'z') ==> u == c
  {
    if 'a' <= c <= 'z' then (c as int - 32) as char else c
  }

  /** First character upper-cased, the rest as it is; the empty string stays empty. */
  function Capitalize(s: string): (r: string)
    ensures |r| == |s|
    ensures s != [] ==> r[0] == UpperAscii(s[0]) && r[1..] == s[1..]
  {
    if s == [] then "" else [UpperAscii(s[0])] + s[1..]
  }

  lemma CapitalizeIdempotent(s: string)
    ensures Capitalize(Capitalize(s)) == Capitalize(s)
  {
  }

  // ---------------------------------------------------------------------------
  // The global replacement of white space, `()`, white space by nothing

  /** There is a `()` somewhere in `s`. */
  predicate HasCallParens(s: string) {
    exists i :: 0 <= i < |s| - 1 && s[i] == '(' && s[i + 1] == ')'
  }

  /** After optional white space, `s` continues with `()`. */
  predicate StartsWithCall(s: string) {
    var t := DropSpaces(s);
    |t| >= 2 && t[0] == '(' && t[1] == ')'
  }

  /** What follows a leading `()` match: the text after the `()` and the white space
      behind it. */
  function AfterCall(s: string): (r: string)
    requires StartsWithCall(s)
    ensures |r| < |s|
  {
    DropSpaces(DropSpaces(s)[2..])
  }

  /** The source's global regular-expression replacement of `()` and its surrounding
      `\s` characters by the empty string: scanning left to right, every `()` is removed
      together with the white space around it; a white-space run not followed by `()`
      is kept. */
  function StripCallParens(s: string): (r: string)
    ensures |r| <= |s|
    decreases |s|
  {
    if s == [] then ""
    else if StartsWithCall(s) then StripCallParens(AfterCall(s))
    else [s[0]] + StripCallParens(s[1..])
  }

  /** The replacement changes `s` exactly when `s` contains a `()`, and then it
      strictly shortens it. */
  lemma {:induction false} StripCallParensChanges(s: string)
    ensures StripCallParens(s) == s <==> !HasCallParens(s)
    ensures HasCallParens(s) ==> |StripCallParens(s)| < |s|
    decreases |s|
  {
    if s == [] {
    } else if |s| >= 2 && s[0] == '(' && s[1] == ')' {
      CallHead(s);
      assert |AfterCall(s)| < |s|;
    } else if StartsWithCall(s) {
      var t := DropSpaces(s);
      var k := |s| - |t|;
      DropSpacesIsSuffix(s);
      assert s[k] == t[0] && s[k + 1] == t[1];
    } else {
      StripCallParensChanges(s[1..]);
      KeepStep(s);
      HasCallParensInTail(s);
      if HasCallParens(s) {
        var i :| 0 <= i < |s| - 1 && s[i] == '(' && s[i + 1] == ')';
        assert i >= 1;
        assert s[1..][i - 1] == '(' && s[1..][i] == ')';
      } else {
        assert [s[0]] + s[1..] == s;
      }
    }
  }

  /** A string that starts with `()` starts with a match. */
  lemma CallHead(s: string)
    requires |s| >= 2 && s[0] == '(' && s[1] == ')'
    ensures StartsWithCall(s)
  {
    ParenIsNotSpace();
    assert DropSpaces(s) == s;
  }

  /** One match step: white space, `()`, white space, then `rest`, is replaced by nothing. */
  lemma CallStep(s: string, tail: string, rest: string)
    requires DropSpaces(s) == tail
    requires |tail| >= 2 && tail[0] == '(' && tail[1] == ')'
    requires DropSpaces(tail[2..]) == rest
    ensures StripCallParens(s) == StripCallParens(rest)
  {
    assert s != [] && StartsWithCall(s) && AfterCall(s) == rest;
  }

  /** No match at the head of `s`: its first character is kept. */
  lemma KeepStep(s: string)
    requires s != [] && !StartsWithCall(s)
    ensures StripCallParens(s) == [s[0]] + StripCallParens(s[1..])
  {
  }

  lemma HasCallParensInTail(s: string)
    requires s != []
    ensures HasCallParens(s[1..]) ==> HasCallParens(s)
  {
    if HasCallParens(s[1..]) {
      var i :| 0 <= i < |s[1..]| - 1 && s[1..][i] == '(' && s[1..][i + 1] == ')';
      assert s[i + 1] == '(' && s[i + 2] == ')';
    }
  }

  /** A leading `()` and the white space around it vanish. */
  lemma LeadingCallParensRemoved(before: string, after: string, rest: string)
    requires AllSpace(before) && AllSpace(after)
    requires rest == [] || !IsSpace(rest[0])
    ensures StripCallParens(before + "()" + after + rest) == StripCallParens(rest)
  {
    var tail := "()" + (after + rest);
    Regroup(before, after, rest);
    LeadingRun(before, after, rest);
    CallStep(before + tail, tail, rest);
  }

  lemma Regroup(before: string, after: string, rest: string)
    ensures before + "()" + after + rest == before + ("()" + (after + rest))
  {
  }

  /** The white space in front of the `()` and behind it. */
  lemma LeadingRun(before: string, after: string, rest: string)
    requires AllSpace(before) && AllSpace(after)
    requires rest == [] || !IsSpace(rest[0])
    ensures var tail := "()" + (after + rest);
      DropSpaces(before + tail) == tail && DropSpaces(tail[2..]) == rest
  {
    var tail := "()" + (after + rest);
    ParenIsNotSpace();
    DropSpacesOfRun(before, tail);
    assert tail[2..] == after + rest;
    DropSpacesOfRun(after, rest);
  }

  /** A match at the head of `s` is replaced by nothing. */
  lemma MatchStep(s: string)
    requires StartsWithCall(s)
    ensures StripCallParens(s) == StripCallParens(AfterCall(s))
  {
  }

  /** Appending text that does not start with `)` to a string that ends in a character
      other than white space neither creates nor destroys a match at its head. */
  lemma StartsWithCallConcat(x: string, y: string)
    requires x != [] && !IsSpace(x[|x| - 1])
    requires y != [] && y[0] != ')'
    ensures StartsWithCall(x + y) == StartsWithCall(x)
  {
    DropSpacesOfConcat(x, y);
    var t := DropSpaces(x);
    if |t| >= 2 {
      assert (t + y)[0] == t[0] && (t + y)[1] == t[1];
    } else {
      assert (t + y)[1] == y[0];
    }
  }

  /** What follows a match at the head of `x` is followed by `y` in `x + y`, unless
      the match reaches the end of `x`. */
  lemma AfterCallConcat(x: string, y: string)
    requires x != [] && !IsSpace(x[|x| - 1])
    requires StartsWithCall(x) && StartsWithCall(x + y)
    ensures AfterCall(x) == [] ==> AfterCall(x + y) == DropSpaces(y)
    ensures AfterCall(x) != [] ==>
      !IsSpace(AfterCall(x)[|AfterCall(x)| - 1]) && AfterCall(x + y) == AfterCall(x) + y
  {
    DropSpacesOfConcat(x, y);
    var t := DropSpaces(x);
    var u := t[2..];
    assert (t + y)[2..] == u + y;
    assert AfterCall(x + y) == DropSpaces(u + y);
    assert AfterCall(x) == DropSpaces(u);
    if u == [] {
      assert u + y == y;
    } else {
      assert u[|u| - 1] == t[|t| - 1];
      DropSpacesOfConcat(u, y);
    }
  }

  /** The replacement works on `x` and on `y` separately when `x` does not end in white
      space, `y` does not start with `)`, and the white space at the head of `y` does not
      matter to the replacement of `y`. */
  lemma {:induction false} StripConcat(x: string, y: string)
    requires x == [] || !IsSpace(x[|x| - 1])
    requires y != [] && y[0] != ')'
    requires StripCallParens(DropSpaces(y)) == StripCallParens(y)
    ensures StripCallParens(x + y) == StripCallParens(x) + StripCallParens(y)
    decreases |x|
  {
    if x == [] {
      assert x + y == y;
    } else {
      StartsWithCallConcat(x, y);
      if StartsWithCall(x) {
        AfterCallConcat(x, y);
        MatchStep(x);
        MatchStep(x + y);
        var a := AfterCall(x);
        if a != [] {
          StripConcat(a, y);
        }
      } else {
        KeepStep(x);
        KeepStep(x + y);
        assert (x + y)[1..] == x[1..] + y;
        StripConcat(x[1..], y);
      }
    }
  }

  /** Text that starts with a match, seen from in front: it does not start with `)`,
      and its leading white space does not matter to the replacement. */
  lemma MatchText(before: string, after: string, rest: string)
    requires AllSpace(before) && AllSpace(after)
    requires rest == [] || !IsSpace(rest[0])
    ensures var y := before + "()" + after + rest;
      y != [] && y[0] != ')' && StripCallParens(DropSpaces(y)) == StripCallParens(y)
  {
    var y := before + "()" + after + rest;
    LeadingCallParensRemoved(before, after, rest);
    LeadingRun(before, after, rest);
    Regroup(before, after, rest);
    Regroup("", after, rest);
    LeadingCallParensRemoved("", after, rest);
    ParenIsNotSpace();
    if before != [] {
      assert y[0] == before[0];
    } else {
      assert y[0] == '(';
    }
  }

  /** A `()` with the white space around it vanishes wherever it sits, provided the
      text in front of it does not end in white space (that white space would be part
      of the match). */
  lemma CallParensRemovedAnywhere(x: string, before: string, after: string, rest: string)
    requires x == [] || !IsSpace(x[|x| - 1])
    requires AllSpace(before) && AllSpace(after)
    requires rest == [] || !IsSpace(rest[0])
    ensures StripCallParens(x + before + "()" + after + rest)
         == StripCallParens(x) + StripCallParens(rest)
  {
    RegroupAfter(x, before, after, rest);
    MatchText(before, after, rest);
    LeadingCallParensRemoved(before, after, rest);
    StripConcat(x, before + "()" + after + rest);
  }

  lemma RegroupAfter(x: string, before: string, after: string, rest: string)
    ensures x + before + "()" + after + rest == x + (before + "()" + after + rest)
  {
  }

  /** A name without white space and without `(`, followed by `()`, loses just the `()`. */
  lemma {:induction false} TrailingCallParensRemoved(name: string)
    requires PlainName(name)
    ensures StripCallParens(name + "()") == name
    decreases |name|
  {
    if name == [] {
      ParenIsNotSpace();
      assert DropSpaces("()") == "()";
      assert DropSpaces(""[..]) == "";
      CallStep("()", "()", "");
      assert name + "()" == "()";
    } else {
      var s := name + "()";
      NotSpaceKept(s);
      KeepStep(s);
      assert s[1..] == name[1..] + "()";
      TrailingCallParensRemoved(name[1..]);
      assert [name[0]] + name[1..] == name;
    }
  }

  /** `name` has no white space and no `(`. */
  predicate PlainName(name: string)
    decreases |name|
  {
    name == [] || (name[0] != '(' && !IsSpace(name[0]) && PlainName(name[1..]))
  }

  /** A string that starts with neither white space nor `(` has no match at its head. */
  lemma NotSpaceKept(s: string)
    requires s != [] && s[0] != '(' && !IsSpace(s[0])
    ensures !StartsWithCall(s)
  {
    assert DropSpaces(s) == s;
  }

  // ---------------------------------------------------------------------------
  // Route-info inference

  /** The logged format: what content negotiation returned (`accepted`, None for no
      match), or "unknown" when that is missing or empty. */
  function Format(accepted: Option<string>): (f: string)
    ensures f != ""
    ensures accepted.Some? && accepted.value != "" ==> f == accepted.value
    ensures !(accepted.Some? && accepted.value != "") ==> f == "unknown"
  {
    if accepted.Some? && accepted.value != "" then accepted.value else "unknown"
  }

  /** The non-empty '/'-separated segments of the request path. */
  function Segments(path: string): (segs: seq<string>)
    ensures forall i :: 0 <= i < |segs| ==> segs[i] != "" && '/' !in segs[i]
  {
    FilterNonEmpty(Split(path, '/'))
  }

  /** The string-handler branch: the first two '.'-separated pieces. */
  function FromNamed(name: string, format: string): RouteInfo {
    var parts := Split(name, '.');
    RouteInfo(if parts[0] == "" then "Unknown" else parts[0],
              if |parts| > 1 && parts[1] != "" then parts[1] else "Unknown",
              format)
  }

  /** The array-handler branch, for an array of at least two items. */
  function FromTuple(items: seq<string>, format: string): RouteInfo
    requires |items| >= 2
  {
    RouteInfo(StripCallParens(items[0]), items[1], format)
  }

  /** The URL branch, given the non-empty path segments. */
  function FromSegments(segs: seq<string>, format: string): Option<RouteInfo> {
    if segs == [] then None
    else
      var segment1 := segs[0];
      var segment2 := if |segs| > 1 then segs[1] else "";
      if segment1 == "admin" && segment2 != "" then
        if segment2 == "login" then Some(RouteInfo("AdminAuthController", "show", format))
        else Some(RouteInfo("Admin" + Capitalize(segment2) + "Controller",
                            if |segs| > 2 then segs[2] else "index", format))
      else Some(RouteInfo(Capitalize(segment1) + "Controller",
                          if segment2 != "" then segment2 else "index", format))
  }

  /** URL inference from the request path. */
  function FromUrl(path: string, format: string): Option<RouteInfo> {
    FromSegments(Segments(path), format)
  }

  /** A handler that `getRouteInfo` reads directly: a non-empty string, or an array
      of at least two items. Anything else (including the falsy empty string) is
      passed over in favour of the URL. */
  predicate UsesHandler(handler: Handler) {
    (handler.Named? && handler.name != "") || (handler.Tuple? && |handler.items| >= 2)
  }

  /** The controller/action guess for a request, or None when there is none. */
  function GetRouteInfo(handler: Handler, url: string, accepted: Option<string>): (r: Option<RouteInfo>)
    ensures r.Some? ==> r.value.format == Format(accepted)
    ensures UsesHandler(handler) ==> r.Some?
  {
    var format := Format(accepted);
    if handler.Named? && handler.name != "" then Some(FromNamed(handler.name, format))
    else if handler.Tuple? && |handler.items| >= 2 then Some(FromTuple(handler.items, format))
    else FromUrl(url, format)
  }

  /** No guess is made exactly when the handler is passed over and the path is made
      of slashes only (the empty path included). */
  lemma RouteInfoNoneIff(handler: Handler, url: string, accepted: Option<string>)
    ensures GetRouteInfo(handler, url, accepted) == None
        <==> !UsesHandler(handler) && forall j :: 0 <= j < |url| ==> url[j] == '/'
  {
    UrlNoneIff(url, Format(accepted));
  }

  /** An array handler of at least two items names its controller by the first item,
      with every `()` match removed, and its action by the second item as it is. */
  lemma TupleHandler(items: seq<string>, url: string, accepted: Option<string>)
    requires |items| >= 2
    ensures GetRouteInfo(Tuple(items), url, accepted)
         == Some(RouteInfo(StripCallParens(items[0]), items[1], Format(accepted)))
  {
  }

  // ---------------------------------------------------------------------------
  // Properties of the string-handler branch

  /** A string handler "C.A..." names controller C and action A; an empty piece reads
      as "Unknown". */
  lemma NamedHandlerWithDot(c: string, a: string, rest: string, url: string, accepted: Option<string>)
    requires '.' !in c && '.' !in a
    requires rest == [] || rest[0] == '.'
    ensures GetRouteInfo(Named(c + "." + a + rest), url, accepted)
         == Some(RouteInfo(if c == "" then "Unknown" else c,
                           if a == "" then "Unknown" else a,
                           Format(accepted)))
  {
    SplitFirstTwo(c, a, rest);
  }

  /** The first two '.'-pieces of "C.A" followed by nothing or ".anything". */
  lemma SplitFirstTwo(c: string, a: string, rest: string)
    requires '.' !in c && '.' !in a
    requires rest == [] || rest[0] == '.'
    ensures var parts := Split(c + "." + a + rest, '.');
      |parts| >= 2 && parts[0] == c && parts[1] == a
  {
    assert c + "." + a + rest == c + ['.'] + (a + rest);
    SplitAtSep(c, a + rest, '.');
    SplitNoSep(c, '.');
    SplitHead(a, rest);
  }

  /** A dot-free `a` followed by nothing or by a dot is the first piece. */
  lemma SplitHead(a: string, rest: string)
    requires '.' !in a
    requires rest == [] || rest[0] == '.'
    ensures Split(a + rest, '.')[0] == a
  {
    SplitNoSep(a, '.');
    if rest == [] {
      assert a + rest == a;
    } else {
      assert a + rest == a + ['.'] + rest[1..];
      SplitAtSep(a, rest[1..], '.');
    }
  }

  /** A string handler without a dot is the controller; the action is "Unknown". */
  lemma NamedHandlerWithoutDot(name: string, url: string, accepted: Option<string>)
    requires name != "" && '.' !in name
    ensures GetRouteInfo(Named(name), url, accepted) == Some(RouteInfo(name, "Unknown", Format(accepted)))
  {
    SplitNoSep(name, '.');
  }

  /** A string handler never yields an empty controller or action. */
  lemma NamedHandlerNeverEmpty(name: string, format: string)
    ensures FromNamed(name, format).controller != "" && FromNamed(name, format).action != ""
    ensures '.' !in FromNamed(name, format).controller && '.' !in FromNamed(name, format).action
  {
  }

  // ---------------------------------------------------------------------------
  // Falling through to the URL

  /** In every case but the two direct branches (no route, an object, an array of
      fewer than two items, the empty string) the URL decides. */
  lemma FallsBackToUrl(handler: Handler, url: string, accepted: Option<string>)
    ensures !UsesHandler(handler) ==> GetRouteInfo(handler, url, accepted) == FromUrl(url, Format(accepted))
  {
  }

  // ---------------------------------------------------------------------------
  // Properties of URL inference

  /** URL inference fails exactly when the path has no characters other than '/'. */
  lemma {:induction false} UrlNoneIff(path: string, format: string)
    ensures FromUrl(path, format) == None <==> forall j :: 0 <= j < |path| ==> path[j] == '/'
  {
    var parts := Split(path, '/');
    SplitAllEmpty(path, '/');
    FilterEmptyIff(parts);
    assert Segments(path) == FilterNonEmpty(parts);
    assert FromUrl(path, format) == None <==> Segments(path) == [];
  }

  /** Whatever the path, a URL guess names a "...Controller" and a non-empty action
      that is one path segment (or "index"/"show"). */
  lemma UrlInferenceShape(path: string, format: string)
    requires FromUrl(path, format).Some?
    ensures var info := FromUrl(path, format).value;
      |info.controller| > |"Controller"|
      && info.controller[|info.controller| - |"Controller"|..] == "Controller"
      && info.action != "" && '/' !in info.action
      && info.format == format
  {
    var segs := Segments(path);
    var info := FromUrl(path, format).value;
    var tail := "Controller";
    if segs[0] == "admin" && |segs| > 1 && segs[1] != "" && segs[1] != "login" {
      var head := "Admin" + Capitalize(segs[1]);
      assert info.controller == head + tail;
    } else if !(segs[0] == "admin" && |segs| > 1) {
      var head := Capitalize(segs[0]);
      assert info.controller == head + tail;
    }
  }

  /** Non-empty, slash-free strings: what a path splits into. */
  predicate ValidSegments(segs: seq<string>) {
    forall i :: 0 <= i < |segs| ==> segs[i] != "" && '/' !in segs[i]
  }

  lemma ValidSegmentsConcat(a: seq<string>, b: seq<string>)
    requires ValidSegments(a) && ValidSegments(b)
    ensures ValidSegments(a + b)
  {
    forall i | 0 <= i < |a + b| ensures (a + b)[i] != "" && '/' !in (a + b)[i] {
      if i >= |a| { assert (a + b)[i] == b[i - |a|]; }
    }
  }

  /** The segments of a path written as '/'-separated segments are those segments. */
  lemma SegmentsOfPath(segs: seq<string>)
    requires |segs| >= 1 && ValidSegments(segs)
    ensures Segments("/" + Join(segs, '/')) == segs
  {
    var path := "/" + Join(segs, '/');
    assert path == "" + ['/'] + Join(segs, '/');
    SplitAtSep("", Join(segs, '/'), '/');
    SplitJoin(segs, '/');
    FilterConcat([""], segs);
    FilterKeepsNonEmpty(segs);
  }

  /** Doubled, leading and trailing slashes do not change the segments. */
  lemma ExtraSlashesIgnored(a: string, b: string)
    ensures Segments(a + "//" + b) == Segments(a + "/" + b)
    ensures Segments("/" + a) == Segments(a)
    ensures Segments(a + "/") == Segments(a)
  {
    assert a + "//" + b == a + ['/'] + ("/" + b);
    assert "/" + b == "" + ['/'] + b;
    assert a + "/" + b == a + ['/'] + b;
    SplitAtSep(a, "/" + b, '/');
    SplitAtSep("", b, '/');
    SplitAtSep(a, b, '/');
    FilterConcat(Split(a, '/'), [""] + Split(b, '/'));
    FilterConcat([""], Split(b, '/'));
    FilterConcat(Split(a, '/'), Split(b, '/'));
    assert "/" + a == "" + ['/'] + a;
    SplitAtSep("", a, '/');
    FilterConcat([""], Split(a, '/'));
    assert a + "/" == a + ['/'] + "";
    SplitAtSep(a, "", '/');
    FilterConcat(Split(a, '/'), [""]);
    assert Split(a, '/') + [] == Split(a, '/');
  }

  /** `/admin/login`, whatever follows it, is `AdminAuthController#show`. */
  lemma AdminLoginRoute(more: seq<string>, format: string)
    requires ValidSegments(more)
    ensures FromUrl("/" + Join(["admin", "login"] + more, '/'), format)
         == Some(RouteInfo("AdminAuthController", "show", format))
  {
    assert ValidSegments(["admin", "login"]);
    ValidSegmentsConcat(["admin", "login"], more);
    var segs := ["admin", "login"] + more;
    SegmentsOfPath(segs);
    assert segs[0] == "admin" && segs[1] == "login";
  }

  /** `/admin/X[/Y...]` with X other than "login" is `AdminXController#Y`, or `#index`
      when there is no third segment. */
  lemma AdminSectionRoute(x: string, more: seq<string>, format: string)
    requires x != "" && '/' !in x && x != "login"
    requires ValidSegments(more)
    ensures FromUrl("/" + Join(["admin", x] + more, '/'), format)
         == Some(RouteInfo("Admin" + Capitalize(x) + "Controller",
                           if more == [] then "index" else more[0], format))
  {
    assert ValidSegments(["admin", x]);
    ValidSegmentsConcat(["admin", x], more);
    var segs := ["admin", x] + more;
    SegmentsOfPath(segs);
    assert segs[0] == "admin" && segs[1] == x;
    if more != [] { assert segs[2] == more[0]; }
  }

  /** Any other path, a lone `/admin` included, is `Seg1Controller#seg2`, or `#index`
      when there is one segment. */
  lemma PlainRoute(first: string, more: seq<string>, format: string)
    requires first != "" && '/' !in first
    requires ValidSegments(more)
    requires first == "admin" ==> more == []
    ensures FromUrl("/" + Join([first] + more, '/'), format)
         == Some(RouteInfo(Capitalize(first) + "Controller",
                           if more == [] then "index" else more[0], format))
  {
    assert ValidSegments([first]);
    ValidSegmentsConcat([first], more);
    var segs := [first] + more;
    SegmentsOfPath(segs);
    assert segs[0] == first;
    if more != [] { assert segs[1] == more[0]; }
  }
}
