/** The help.index tool: from the registry of tool summaries (keyed by tool
    name) and the configured priority list and categories, it recommends
    the first `limit` known priority tools and lists every category that
    has a known tool. The summary type S is left abstract. */
module HelpIndex {
  import opened Common

  /** The configured names the registry knows, in configured order. */
  function Known<S>(names: seq<string>, info: map<string, S>): (r: seq<string>)
    ensures |r| <= |names|
    ensures forall n | n in r :: n in info && n in names
  {
    if names == [] then []
    else (if names[0] in info then [names[0]] else []) + Known(names[1..], info)
  }

  /** Filtering a concatenation filters each part in turn, so the filter
      keeps the configured order. */
  lemma {:induction false} KnownAppend<S>(a: seq<string>, b: seq<string>, info: map<string, S>)
    ensures Known(a + b, info) == Known(a, info) + Known(b, info)
    decreases |a|
  {
    if a != [] {
      assert (a + b)[1..] == a[1..] + b;
      KnownAppend(a[1..], b, info);
    } else {
      assert a + b == b;
    }
  }

  /** A configured name survives the filter exactly when the registry knows it. */
  lemma {:induction false} KnownComplete<S>(names: seq<string>, info: map<string, S>)
    ensures forall n | n in names :: n in Known(names, info) <==> n in info
    decreases |names|
  {
    if names != [] {
      KnownComplete(names[1..], info);
      forall n | n in names
        ensures n in Known(names, info) <==> n in info
      {
        if n != names[0] {
          assert n in names[1..];
        }
      }
    }
  }

  /** The summaries of known names, in order. */
  function Lookup<S>(names: seq<string>, info: map<string, S>): seq<S>
    requires forall n | n in names :: n in info
  {
    seq(|names|, k requires 0 <= k < |names| => info[names[k]])
  }

  lemma LookupSnoc<S>(names: seq<string>, n: string, info: map<string, S>)
    requires forall m | m in names :: m in info
    requires n in info
    ensures Lookup(names + [n], info) == Lookup(names, info) + [info[n]]
  {
  }

  /** One more configured name adds it to the filter when it is known. */
  lemma KnownStep<S>(names: seq<string>, k: nat, info: map<string, S>)
    requires k < |names|
    ensures Known(names[..k + 1], info) == Known(names[..k], info) + (if names[k] in info then [names[k]] else [])
  {
    KnownAppend(names[..k], [names[k]], info);
    assert names[..k + 1] == names[..k] + [names[k]];
    assert [names[k]][1..] == [];
  }

  datatype Category<S> = Category(category: string, tools: seq<S>)

  /** The listed categories: configured order, each with its known tools,
      and no category whose list would be empty. */
  function Groups<S>(categories: seq<(string, seq<string>)>, info: map<string, S>): seq<Category<S>>
  {
    if categories == [] then []
    else Group(categories[0], info) + Groups(categories[1..], info)
  }

  /** One configured category: listed with its known tools, or dropped. */
  function Group<S>(category: (string, seq<string>), info: map<string, S>): seq<Category<S>>
  {
    var known := Known(category.1, info);
    if known != [] then [Category(category.0, Lookup(known, info))] else []
  }

  lemma {:induction false} GroupsAppend<S>(a: seq<(string, seq<string>)>, b: seq<(string, seq<string>)>, info: map<string, S>)
    ensures Groups(a + b, info) == Groups(a, info) + Groups(b, info)
    decreases |a|
  {
    if a != [] {
      assert (a + b)[0] == a[0];
      assert (a + b)[1..] == a[1..] + b;
      GroupsAppend(a[1..], b, info);
      var g := Group(a[0], info);
      assert Groups(a + b, info) == g + (Groups(a[1..], info) + Groups(b, info));
      assert g + (Groups(a[1..], info) + Groups(b, info)) == (g + Groups(a[1..], info)) + Groups(b, info);
    } else {
      assert a + b == b;
    }
  }

  /** No listed category is empty, and every configured category with a
      known tool is listed. */
  lemma {:induction false} GroupsShape<S>(categories: seq<(string, seq<string>)>, info: map<string, S>)
    ensures forall g | g in Groups(categories, info) :: g.tools != []
    ensures forall c | c in categories && Known(c.1, info) != [] ::
      Category(c.0, Lookup(Known(c.1, info), info)) in Groups(categories, info)
    decreases |categories|
  {
    if categories != [] {
      GroupsShape(categories[1..], info);
      forall c | c in categories && Known(c.1, info) != []
        ensures Category(c.0, Lookup(Known(c.1, info), info)) in Groups(categories, info)
      {
        if c != categories[0] {
          assert c in categories[1..];
        }
      }
    }
  }

  /** The first `limit` known priority tools (none for a limit of 0 or less). */
  function Recommended<S>(priority: seq<string>, info: map<string, S>, limit: int): (r: seq<S>)
    ensures |r| == Min(|Known(priority, info)|, Max(limit, 0))
  {
    var known := Known(priority, info);
    Lookup(known[..Min(|known|, Max(limit, 0))], info)
  }

  /** One category's tool list: a loop over its configured names. */
  method CategoryTools<S>(names: seq<string>, info: map<string, S>) returns (list: seq<S>)
    ensures list == Lookup(Known(names, info), info)
  {
    list := [];
    for k := 0 to |names|
      invariant list == Lookup(Known(names[..k], info), info)
    {
      KnownStep(names, k, info);
      if names[k] in info {
        LookupSnoc(Known(names[..k], info), names[k], info);
        list := list + [info[names[k]]];
      }
    }
    assert names[..|names|] == names;
  }

  /** The first loop: append known priority tools until `limit` are listed. */
  method Recommend<S>(info: map<string, S>, priority: seq<string>, limit: int) returns (recommended: seq<S>)
    ensures recommended == Recommended(priority, info, limit)
  {
    var known := Known(priority, info);
    recommended := [];
    var k := 0;
    while k < |known|
      invariant 0 <= k <= |known| && k <= Max(limit, 0)
      invariant recommended == Lookup(known[..k], info)
    {
      if |recommended| >= limit {
        break;
      }
      recommended := recommended + [info[known[k]]];
      k := k + 1;
    }
    assert k == Min(|known|, Max(limit, 0));
  }

  /** The second loop: one entry per configured category with known tools. */
  method Categorize<S>(info: map<string, S>, categories: seq<(string, seq<string>)>) returns (cats: seq<Category<S>>)
    ensures cats == Groups(categories, info)
  {
    cats := [];
    for c := 0 to |categories|
      invariant cats == Groups(categories[..c], info)
    {
      var name := categories[c].0;
      var list := CategoryTools(categories[c].1, info);
      GroupsAppend(categories[..c], [categories[c]], info);
      assert categories[..c + 1] == categories[..c] + [categories[c]];
      if list != [] {
        cats := cats + [Category(name, list)];
      }
    }
    assert categories[..|categories|] == categories;
  }

  /** The fixed hint every help.index response carries. */
  const Note := "For details call: help.tool { name: '<tool-name>' }"

  /** handle: the recommended list, the categories and the fixed note. */
  method Index<S>(info: map<string, S>, priority: seq<string>, limit: int, categories: seq<(string, seq<string>)>)
    returns (recommended: seq<S>, cats: seq<Category<S>>, note: string)
    ensures recommended == Recommended(priority, info, limit)
    ensures cats == Groups(categories, info)
    ensures note == Note
  {
    recommended := Recommend(info, priority, limit);
    cats := Categorize(info, categories);
    note := Note;
  }
}
