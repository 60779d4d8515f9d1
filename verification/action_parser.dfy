/** The route action named by a matching route, taken apart into the controller class
    and the method to open (the first steps of `jumpToControllerMethod`). */
module ActionParser {
  import opened Wrappers
  import opened Text

  /** The controller's short class name and the method name. */
  datatype Target = Target(controller: string, methodName: string)

  /** The action text does not have exactly one `@`; the plugin reports it and stops. */
  datatype ParseError = InvalidFormat(action: string)

  /** The action, split at `@` into exactly two parts; the class name is what follows
      the last namespace separator `\` of the first part. */
  function ParseAction(action: string): (r: Result<Target, ParseError>)
    ensures r.Ok? <==> Count(action, '@') == 1
    ensures r.Err? ==> r.error == InvalidFormat(action)
    ensures r.Ok? ==> && '\\' !in r.value.controller && '@' !in r.value.controller
                      && '@' !in r.value.methodName
    ensures r.Ok? ==> var tail := r.value.controller + "@" + r.value.methodName;
                      && EndsWith(action, tail)
                      && (|tail| == |action| || action[|action| - |tail| - 1] == '\\')
  {
    var parts := Split(action, '@');
    if |parts| != 2 then
      Err(InvalidFormat(action))
    else
      var controller := SubstringAfterLast(parts[0], '\\');
      ActionShape(parts, controller);
      Ok(Target(controller, parts[1]))
  }

  lemma ActionShape(parts: seq<string>, controller: string)
    requires |parts| == 2
    requires |controller| <= |parts[0]| && controller == parts[0][|parts[0]| - |controller|..]
    requires |controller| < |parts[0]| ==> parts[0][|parts[0]| - |controller| - 1] == '\\'
    ensures var action := Join(parts, '@'); var tail := controller + "@" + parts[1];
            && EndsWith(action, tail)
            && (|tail| == |action| || action[|action| - |tail| - 1] == '\\')
  {
    var action := Join(parts, '@');
    var tail := controller + "@" + parts[1];
    var ns := parts[0][..|parts[0]| - |controller|];
    assert parts[0] == ns + controller;
    assert Join(parts[1..], '@') == parts[1];
    assert action == ns + tail;
    assert action[|action| - |tail|..] == tail;
    if |tail| < |action| {
      assert action[|action| - |tail| - 1] == ns[|ns| - 1];
    }
  }

  /** An action written as namespace, class name, `@` and method is parsed back into that
      class name and method. */
  lemma ParseFormattedAction(ns: string, controller: string, methodName: string)
    requires '@' !in ns && '@' !in controller && '@' !in methodName
    requires '\\' !in controller
    requires ns == [] || ns[|ns| - 1] == '\\'
    ensures ParseAction(ns + controller + "@" + methodName) == Ok(Target(controller, methodName))
  {
    var first := ns + controller;
    assert '@' !in first;
    var action := ns + controller + "@" + methodName;
    assert Join([first, methodName], '@') == action by {
      assert [first, methodName][1..] == [methodName];
    }
    SplitJoin([first, methodName], '@');
    SubstringAfterLastOf(ns, '\\', controller);
  }

  /** A closure route, or any action without exactly one `@`, is refused. */
  lemma ParseActionRefusesClosure()
    ensures ParseAction("Closure") == Err(InvalidFormat("Closure"))
  {
    CountAbsent("Closure", '@');
  }
}
