/** The `HSToggleCount` plugin: a display element whose number counts from
    `min` to `max` when a bound checkbox becomes checked, and back when it is
    unchecked, plus the process-wide registry of live instances.

    The document is passed in explicitly. `query` stands for
    `document.querySelector`: it maps each selector that matches to its first
    element. `attached` stands for `document.contains`, and `marked` for the
    elements that carry `data-hs-toggle-count` without `--prevent-on-load-init`,
    in document order. Frame timestamps come in as a sequence. */
module ToggleCountPlugin {
  import Seqs
  import Animation

  datatype Option<+T> = None | Some(value: T)

  /** A target, as an option or as `getInstance`'s argument: an element given
      directly, or a selector string. */
  datatype TargetRef = ToElement(control: Element) | ToSelector(selector: string)

  /** The parsed and merged options of one instance. `None` is an absent key. */
  datatype Options = Options(target: Option<TargetRef>, min: Option<int>, max: Option<int>, duration: Option<int>)

  /** What an element's text shows: what the page put there, or a number the
      plugin wrote with `innerText = String(n)`. */
  datatype Text = Authored | Number(n: int)

  /** A DOM element. Displays use `text`, checkbox controls `checked`. `data`
      is the parsed `data-hs-toggle-count` attribute. */
  class Element {
    var text: Text
    var checked: bool
    const data: Options

    constructor (data: Options, checked: bool)
      ensures this.data == data && this.checked == checked && text == Authored
    {
      this.data := data;
      this.checked := checked;
      text := Authored;
    }
  }

  /** JavaScript's `value || fallback` on an optional number: an absent value
      and 0 are both falsy and give `fallback`. */
  function OrElse(value: Option<int>, fallback: int): (r: int)
    ensures value.Some? && value.value != 0 ==> r == value.value
    ensures value.None? || value.value == 0 ==> r == fallback
    ensures fallback != 0 ==> r != 0
  {
    if value.Some? && value.value != 0 then value.value else fallback
  }

  /** The control an option `target` designates. An element is taken as it is.
      A non-empty selector is looked up in the document. An absent target or an
      empty selector (falsy) designates nothing. */
  function ResolveTarget(target: Option<TargetRef>, query: map<string, Element>): (r: Option<Element>)
    ensures r.Some? <==>
      target.Some? && (target.value.ToElement? || (target.value.selector != "" && target.value.selector in query))
    ensures r.Some? && target.value.ToElement? ==> r.value == target.value.control
    ensures r.Some? && target.value.ToSelector? ==> r.value == query[target.value.selector]
  {
    match target
    case None => None
    case Some(ToElement(c)) => Some(c)
    case Some(ToSelector(sel)) =>
      if sel != "" && sel in query then Some(query[sel]) else None
  }

  /** The text after a run wrote `written` over `before`: the last number
      written, or `before` when nothing was written. */
  function Shown(before: Text, written: seq<int>): Text {
    if written == [] then before else Number(written[|written| - 1])
  }

  lemma ShownAfterWrite(before: Text, written: seq<int>, v: int)
    ensures Shown(before, written + [v]) == Number(v)
  {
  }

  /** One registry item, `{ element: instance }`. */
  datatype Entry = Entry(element: ToggleCount)

  /** The display elements of the entries, in order. */
  function Keys(s: seq<Entry>): (r: seq<Element>)
    ensures |r| == |s|
    ensures forall i :: 0 <= i < |s| ==> r[i] == s[i].element.el
    decreases |s|
  {
    if s == [] then [] else [s[0].element.el] + Keys(s[1..])
  }

  /** The instances of the entries, in order. */
  function Instances(s: seq<Entry>): (r: seq<ToggleCount>)
    ensures |r| == |s|
    ensures forall i :: 0 <= i < |s| ==> r[i] == s[i].element
  {
    seq(|s|, i requires 0 <= i < |s| => s[i].element)
  }

  lemma {:induction false} KeysAppend(a: seq<Entry>, b: seq<Entry>)
    ensures Keys(a + b) == Keys(a) + Keys(b)
  {
    assert |Keys(a + b)| == |Keys(a) + Keys(b)|;
    forall i | 0 <= i < |a + b| ensures Keys(a + b)[i] == (Keys(a) + Keys(b))[i] {
      if i < |a| {
        assert (a + b)[i] == a[i];
      } else {
        assert (a + b)[i] == b[i - |a|];
      }
    }
  }

  /** The first-match `find` over the registry by display element. */
  function FindIndex(s: seq<Entry>, el: Element): (r: Option<nat>)
    ensures r.None? <==> forall i :: 0 <= i < |s| ==> s[i].element.el != el
    ensures r.Some? ==> r.value < |s| && s[r.value].element.el == el
    ensures r.Some? ==> forall j :: 0 <= j < r.value ==> s[j].element.el != el
    decreases |s|
  {
    if s == [] then None
    else if s[0].element.el == el then Some(0)
    else
      match FindIndex(s[1..], el)
      case None => None
      case Some(i) => Some(i + 1)
  }

  /** The entry `find` returns, or `None` for `undefined`. */
  function Find(s: seq<Entry>, el: Element): (r: Option<Entry>)
    ensures r.None? <==> forall i :: 0 <= i < |s| ==> s[i].element.el != el
    ensures r.Some? ==> exists i :: IsFirstMatch(s, el, i) && r.value == s[i]
  {
    match FindIndex(s, el)
    case None => None
    case Some(i) =>
      assert IsFirstMatch(s, el, i);
      Some(s[i])
  }

  /** The filter test `destroy` applies: keep entries of other elements. */
  function OtherThan(el: Element): Entry -> bool {
    (e: Entry) => e.element.el != el
  }

  /** The filter test `autoInit` applies: keep entries still in the document. */
  function Attached(attached: set<Element>): Entry -> bool {
    (e: Entry) => e.element.el in attached
  }

  /** `Attached` on display elements rather than entries. */
  function Within(attached: set<Element>): Element -> bool {
    e => e in attached
  }

  /** Whether constructing an instance for this element resolves a target. */
  function Resolvable(query: map<string, Element>): Element -> bool {
    (e: Element) => ResolveTarget(e.data.target, query).Some?
  }

  /** The registry `window.$hsToggleCountCollection`: an ordered list with no
      uniqueness check of its own. */
  class Registry {
    var entries: seq<Entry>

    /** Creating the global list `[]`. */
    constructor ()
      ensures entries == []
    {
      entries := [];
    }

    /** The reassignment in `autoInit` that keeps only entries whose element is
        still in the document. */
    method Prune(attached: set<Element>)
      modifies this`entries
      ensures entries == Seqs.Filter(old(entries), Attached(attached))
      ensures Keys(entries) == Seqs.Filter(Keys(old(entries)), Within(attached))
    {
      KeysOfPrune(entries, attached);
      entries := Seqs.Filter(entries, Attached(attached));
    }

    /** `createCollection`: append `{ element: c }`. */
    method Add(c: ToggleCount)
      modifies this`entries
      ensures entries == old(entries) + [Entry(c)]
    {
      entries := entries + [Entry(c)];
    }
  }

  /** What `getInstance` returns: null, the registry item, or the instance. */
  datatype Found = Null | Wrapper(entry: Entry) | Plugin(instance: ToggleCount)

  /** The element `getInstance`'s argument designates, resolved as an option
      target is. The empty selector and a selector that matches nothing give
      none, and no entry matches it. */
  function LookupElement(target: TargetRef, query: map<string, Element>): (r: Option<Element>)
    ensures target.ToElement? ==> r == Some(target.control)
    ensures target.ToSelector? ==> (r.Some? <==> target.selector != "" && target.selector in query)
    ensures target.ToSelector? && r.Some? ==> r.value == query[target.selector]
  {
    ResolveTarget(Some(target), query)
  }

  /** `i` is the first entry whose display element is `el`. */
  predicate IsFirstMatch(s: seq<Entry>, el: Element, i: int) {
    0 <= i < |s| && s[i].element.el == el && forall j :: 0 <= j < i ==> s[j].element.el != el
  }

  /** An instance's configuration is what the constructor derives from `options`. */
  predicate Configured(c: ToggleCount, options: Options, query: map<string, Element>) {
    && c.target == ResolveTarget(options.target, query)
    && c.min == OrElse(options.min, 0)
    && c.max == OrElse(options.max, 0)
    && c.duration == OrElse(options.duration, 700)
  }

  /** A run length the frame formula can divide by. The default 700 and every
      non-zero option qualify, and `||` replaces 0 by the default. */
  type Duration = d: int | d != 0 witness 700

  class ToggleCount {
    const el: Element
    const target: Option<Element>
    const min: int
    const max: int
    const duration: Duration
    var isChecked: bool
    /** Whether the change listener is attached to the target. */
    var listening: bool

    /** Applies the option defaults, resolves the target and, only when a target
        was found, runs `init`. Without a target the instance stays inert and
        unregistered. */
    constructor (el: Element, options: Options, query: map<string, Element>, reg: Registry)
      modifies reg`entries, el`text
      ensures this.el == el && Configured(this, options, query)
      ensures isChecked == (target.Some? && target.value.checked)
      ensures listening == target.Some?
      ensures reg.entries == if target.Some? then old(reg.entries) + [Entry(this)] else old(reg.entries)
      ensures el.text == if target.Some? && isChecked then Number(max) else old(el.text)
    {
      this.el := el;
      target := ResolveTarget(options.target, query);
      min := OrElse(options.min, 0);
      max := OrElse(options.max, 0);
      duration := OrElse(options.duration, 700);
      isChecked := match ResolveTarget(options.target, query)
                   case Some(c) => c.checked
                   case None => false;
      listening := false;
      new;
      if target.Some? {
        Init(reg);
      }
    }

    /** Registers the instance, shows `max` at once when already checked, and
        attaches the change listener. */
    method Init(reg: Registry)
      requires target.Some?
      modifies reg`entries, el`text, this`listening
      ensures listening
      ensures reg.entries == old(reg.entries) + [Entry(this)]
      ensures el.text == if isChecked then Number(max) else old(el.text)
    {
      reg.Add(this);
      if isChecked {
        el.text := Number(max);
      }
      listening := true;
    }

    /** One frame callback of a run: capture the start timestamp if it is still
        0, then write the value for the progress reached. */
    method Step(from: int, to: int, start: real, timestamp: real) returns (captured: real, progress: real)
      modifies el`text
      ensures captured == if start == 0.0 then timestamp else start
      ensures progress == Animation.Progress(timestamp - captured, duration)
      ensures el.text == Number(Animation.Value(from, to, progress))
    {
      captured := start;
      if captured == 0.0 {
        captured := timestamp;
      }
      progress := Animation.Progress(timestamp - captured, duration);
      el.text := Number(Animation.Value(from, to, progress));
    }

    /** One animation run from `from` to `to`, fed the frame timestamps `frames`.
        It returns the values written and whether it still asks for a frame. */
    method Animate(from: int, to: int, frames: seq<real>) returns (written: seq<int>, requesting: bool)
      modifies el`text
      ensures written == Animation.Run(from, to, duration, 0.0, frames).writes
      ensures requesting == !Animation.Run(from, to, duration, 0.0, frames).done
      ensures el.text == Shown(old(el.text), written)
    {
      var start := 0.0;
      var i := 0;
      written := [];
      ghost var whole := Animation.Run(from, to, duration, 0.0, frames);
      requesting := true;
      while i < |frames| && requesting
        invariant 0 <= i <= |frames|
        invariant requesting ==> whole.writes == written + Animation.Run(from, to, duration, start, frames[i..]).writes
        invariant requesting ==> whole.done == Animation.Run(from, to, duration, start, frames[i..]).done
        invariant !requesting ==> whole == Animation.Trace(written, true)
        invariant el.text == Shown(old(el.text), written)
      {
        Animation.RunFrameAt(from, to, duration, start, frames, i, written);
        var progress;
        start, progress := Step(from, to, start, frames[i]);
        ghost var next := Animation.Run(from, to, duration, start, frames[i + 1..]);
        var v := Animation.Value(from, to, progress);
        ShownAfterWrite(old(el.text), written, v);
        if progress < 1.0 {
          assert whole.writes == (written + [v]) + next.writes && whole.done == next.done;
        } else {
          assert whole == Animation.Trace(written + [v], true);
        }
        written := written + [v];
        i := i + 1;
        requesting := progress < 1.0;
      }
      if requesting {
        assert frames[i..] == [];
      }
    }

    method CountUp(frames: seq<real>) returns (written: seq<int>, requesting: bool)
      modifies el`text
      ensures written == Animation.Run(min, max, duration, 0.0, frames).writes
      ensures requesting == !Animation.Run(min, max, duration, 0.0, frames).done
      ensures el.text == Shown(old(el.text), written)
    {
      written, requesting := Animate(min, max, frames);
    }

    method CountDown(frames: seq<real>) returns (written: seq<int>, requesting: bool)
      modifies el`text
      ensures written == Animation.Run(max, min, duration, 0.0, frames).writes
      ensures requesting == !Animation.Run(max, min, duration, 0.0, frames).done
      ensures el.text == Shown(old(el.text), written)
    {
      written, requesting := Animate(max, min, frames);
    }

    /** Counts up when checked, down otherwise. */
    method Toggle(frames: seq<real>) returns (written: seq<int>, requesting: bool)
      modifies el`text
      ensures var (from, to) := if isChecked then (min, max) else (max, min);
        written == Animation.Run(from, to, duration, 0.0, frames).writes &&
        requesting == !Animation.Run(from, to, duration, 0.0, frames).done
      ensures el.text == Shown(old(el.text), written)
    {
      if isChecked {
        written, requesting := CountUp(frames);
      } else {
        written, requesting := CountDown(frames);
      }
    }

    /** The change listener: flip `isChecked`, then run in the new direction. */
    method ToggleChange(frames: seq<real>) returns (written: seq<int>, requesting: bool)
      modifies this`isChecked, el`text
      ensures isChecked == !old(isChecked)
      ensures var (from, to) := if isChecked then (min, max) else (max, min);
        written == Animation.Run(from, to, duration, 0.0, frames).writes &&
        requesting == !Animation.Run(from, to, duration, 0.0, frames).done
      ensures el.text == Shown(old(el.text), written)
    {
      isChecked := !isChecked;
      written, requesting := Toggle(frames);
    }

    /** A `change` event on the target. It reaches the instance only while the
        listener is attached. */
    method ControlChanged(frames: seq<real>) returns (written: seq<int>, requesting: bool)
      modifies this`isChecked, el`text
      ensures !old(listening) ==> isChecked == old(isChecked) && written == [] && !requesting && el.text == old(el.text)
      ensures old(listening) ==> isChecked == !old(isChecked)
      ensures old(listening) ==> var (from, to) := if isChecked then (min, max) else (max, min);
        written == Animation.Run(from, to, duration, 0.0, frames).writes &&
        requesting == !Animation.Run(from, to, duration, 0.0, frames).done
      ensures el.text == Shown(old(el.text), written)
    {
      if listening {
        written, requesting := ToggleChange(frames);
      } else {
        written, requesting := [], false;
      }
    }

    /** Detaches the listener and drops every entry for this display element. */
    method Destroy(reg: Registry)
      modifies this`listening, reg`entries
      ensures !listening
      ensures reg.entries == Seqs.Filter(old(reg.entries), OtherThan(el))
      ensures forall isInstance: bool, query: map<string, Element> ::
        GetInstance(reg, ToElement(el), isInstance, query) == Null
      ensures forall x :: x != el ==> Find(reg.entries, x) == Find(old(reg.entries), x)
    {
      listening := false;
      RemovedNotFound(reg.entries, el);
      forall x | x != el ensures Find(Seqs.Filter(reg.entries, OtherThan(el)), x) == Find(reg.entries, x) {
        FindAfterRemove(reg.entries, el, x);
      }
      reg.entries := Seqs.Filter(reg.entries, OtherThan(el));
    }

    /** `getInstance`: the first entry for the designated element, as the item
        itself when `isInstance` is set and as its instance otherwise. */
    static function GetInstance(reg: Registry, target: TargetRef, isInstance: bool, query: map<string, Element>): (r: Found)
      reads reg
      ensures r.Null? <==>
        LookupElement(target, query).None? ||
        forall i :: 0 <= i < |reg.entries| ==> reg.entries[i].element.el != LookupElement(target, query).value
      ensures !r.Null? ==>
        exists i :: IsFirstMatch(reg.entries, LookupElement(target, query).value, i) &&
          r == if isInstance then Wrapper(reg.entries[i]) else Plugin(reg.entries[i].element)
    {
      match LookupElement(target, query)
      case None => Null
      case Some(e) =>
        match FindIndex(reg.entries, e)
        case None => Null
        case Some(i) =>
          assert IsFirstMatch(reg.entries, e, i);
          if isInstance then Wrapper(reg.entries[i]) else Plugin(reg.entries[i].element)
    }

    /** The body of `autoInit`'s loop: build an instance for `e` unless an
        entry has it already. Only an instance whose target resolves registers. */
    static method InitIfAbsent(reg: Registry, e: Element, query: map<string, Element>) returns (added: Option<ToggleCount>)
      modifies reg`entries, e`text
      ensures added.Some? <==> FindIndex(old(reg.entries), e).None? && Resolvable(query)(e)
      ensures reg.entries == old(reg.entries) + if added.Some? then [Entry(added.value)] else []
      ensures added.Some? ==> fresh(added.value) && added.value.el == e && Built(added.value, query) && Live(added.value)
      ensures e.text == if added.Some? && added.value.isChecked then Number(added.value.max) else old(e.text)
    {
      added := None;
      if FindIndex(reg.entries, e).None? {
        var c := new ToggleCount(e, e.data, query, reg);
        if c.target.Some? {
          added := Some(c);
        }
      }
    }

    /** One turn of `autoInit`'s loop, for the marked element `e`: the scan so
        far is extended by `e`, earlier entries stay, and what is added is new. */
    static method ScanOne(reg: Registry, e: Element, marked: seq<Element>, n: nat, query: map<string, Element>,
                          ghost pruned: seq<Entry>, ghost texts: map<Element, Text>)
      requires n < |marked| && marked[n] == e
      requires Scanning(reg, pruned, marked[..n], marked, query, texts) && LiveFrom(reg.entries, |pruned|)
      modifies reg`entries, e`text
      ensures Scanning(reg, pruned, marked[..n + 1], marked, query, texts) && LiveFrom(reg.entries, |pruned|)
      ensures |old(reg.entries)| <= |reg.entries| && reg.entries[..|old(reg.entries)|] == old(reg.entries)
      ensures forall i :: |old(reg.entries)| <= i < |reg.entries| ==> fresh(reg.entries[i].element)
    {
      ghost var before := reg.entries;
      var added := InitShowing(reg, e, marked, query, |pruned|, texts);
      ExtendsStep(before, pruned, marked, n, query, added);
      assert reg.entries[..|before|] == before;
      forall i | |pruned| <= i < |reg.entries| ensures Live(reg.entries[i].element) {
        if i < |before| {
          assert reg.entries[i] == before[i];
        }
      }
    }

    /** `InitIfAbsent`, seen from the marked elements: whatever they showed as
        `autoInit` leaves them, they still show. */
    static method InitShowing(reg: Registry, e: Element, marked: seq<Element>, query: map<string, Element>,
                              ghost from: nat, ghost texts: map<Element, Text>) returns (added: Option<ToggleCount>)
      requires from <= |reg.entries| && TextsShown(reg.entries, from, marked, texts)
      modifies reg`entries, e`text
      ensures added.Some? <==> FindIndex(old(reg.entries), e).None? && Resolvable(query)(e)
      ensures reg.entries == old(reg.entries) + if added.Some? then [Entry(added.value)] else []
      ensures added.Some? ==> fresh(added.value) && added.value.el == e && Built(added.value, query) && Live(added.value)
      ensures TextsShown(reg.entries, from, marked, texts)
    {
      ghost var before := reg.entries;
      added := InitIfAbsent(reg, e, query);
      if FindIndex(before, e).Some? {
        assert reg.entries == before;
      } else if added.Some? {
        FindAfterAppend(before, [Entry(added.value)], e);
      }
      forall x | x in marked && x in texts && x != e ensures ShowsAfterInit(reg.entries, from, x, texts[x]) {
        FindAfterAppend(before, reg.entries[|before|..], x);
        assert old(ShowsAfterInit(reg.entries, from, x, texts[x]));
        if FindIndex(before, x).Some? {
          var i := FindIndex(before, x).value;
          assert reg.entries[i] == before[i];
        } else {
          assert forall i :: |before| <= i < |reg.entries| ==> reg.entries[i].element.el == e;
        }
      }
    }

    /** `autoInit`: prune entries whose element left the document, then build an
        instance for every marked element that no entry has. */
    static method AutoInit(reg: Registry, attached: set<Element>, marked: seq<Element>, query: map<string, Element>)
      modifies reg`entries, marked`text
      ensures var pruned := Seqs.Filter(old(reg.entries), Attached(attached));
        |pruned| <= |reg.entries| && reg.entries[..|pruned|] == pruned &&
        forall i :: |pruned| <= i < |reg.entries| ==>
          fresh(reg.entries[i].element) && Built(reg.entries[i].element, query) && Live(reg.entries[i].element)
      ensures Keys(reg.entries) == AutoInitKeys(Keys(old(reg.entries)), attached, marked, Resolvable(query))
      ensures forall e :: e in marked ==>
        ShowsAfterInit(reg.entries, |Seqs.Filter(old(reg.entries), Attached(attached))|, e, old(e.text))
    {
      reg.Prune(attached);
      InitMarked(reg, marked, query);
    }

    /** `autoInit`'s loop over the marked elements. */
    static method InitMarked(reg: Registry, marked: seq<Element>, query: map<string, Element>)
      modifies reg`entries, marked`text
      ensures |old(reg.entries)| <= |reg.entries| && reg.entries[..|old(reg.entries)|] == old(reg.entries)
      ensures forall i :: |old(reg.entries)| <= i < |reg.entries| ==>
        fresh(reg.entries[i].element) && Built(reg.entries[i].element, query)
      ensures LiveFrom(reg.entries, |old(reg.entries)|)
      ensures Keys(reg.entries) == Scan(Keys(old(reg.entries)), marked, Resolvable(query))
      ensures forall e :: e in marked ==> ShowsAfterInit(reg.entries, |old(reg.entries)|, e, old(e.text))
    {
      ghost var pruned := reg.entries;
      ghost var texts := map e | e in marked :: e.text;
      for n := 0 to |marked|
        invariant Scanning(reg, pruned, marked[..n], marked, query, texts)
        invariant LiveFrom(reg.entries, |pruned|)
        invariant forall i :: |pruned| <= i < |reg.entries| ==> fresh(reg.entries[i].element)
      {
        ghost var before := reg.entries;
        ScanOne(reg, marked[n], marked, n, query, pruned, texts);
        forall i | |pruned| <= i < |reg.entries| ensures fresh(reg.entries[i].element) {
          if i < |before| {
            assert reg.entries[i] == before[i];
          }
        }
      }
      assert marked[..|marked|] == marked;
    }

    /** `autoInit` run twice over an unchanged document, as when a page calls
        it again after the load hook: the second run adds and removes nothing,
        and no element ends up with two entries. */
    static method AutoInitTwice(reg: Registry, attached: set<Element>, marked: seq<Element>, query: map<string, Element>)
      requires forall m :: m in marked ==> m in attached
      requires Seqs.NoDuplicates(Keys(reg.entries))
      modifies reg`entries, marked`text
      ensures Keys(reg.entries) == AutoInitKeys(Keys(old(reg.entries)), attached, marked, Resolvable(query))
      ensures Seqs.NoDuplicates(Keys(reg.entries))
    {
      ghost var keys := Keys(reg.entries);
      AutoInit(reg, attached, marked, query);
      AutoInitUnique(keys, attached, marked, Resolvable(query));
      AutoInitIdempotent(keys, attached, marked, Resolvable(query));
      AutoInit(reg, attached, marked, query);
    }
  }

  /** How far `autoInit` has got: the registry's entries extend the pruned
      ones as the scan over `scanned` says, and every marked element shows what
      its instance, if a new one, made it show. */
  ghost predicate Scanning(reg: Registry, pruned: seq<Entry>, scanned: seq<Element>, marked: seq<Element>,
                           query: map<string, Element>, texts: map<Element, Text>)
    reads reg, Instances(reg.entries), marked
  {
    Extends(reg.entries, pruned, scanned, query) && TextsShown(reg.entries, |pruned|, marked, texts)
  }

  /** The pruned entries are still first, every later one is a built
      instance, and the display elements are those of the scan over `scanned`. */
  predicate Extends(entries: seq<Entry>, pruned: seq<Entry>, scanned: seq<Element>, query: map<string, Element>) {
    |pruned| <= |entries| && entries[..|pruned|] == pruned &&
    (forall i :: |pruned| <= i < |entries| ==> Built(entries[i].element, query)) &&
    Keys(entries) == Scan(Keys(pruned), scanned, Resolvable(query))
  }

  /** Every marked element shows what `autoInit` leaves on it, given the text
      `texts` recorded for it before the scan. */
  predicate TextsShown(entries: seq<Entry>, from: nat, marked: seq<Element>, texts: map<Element, Text>)
    reads Instances(entries), marked
  {
    forall e :: e in marked && e in texts ==> ShowsAfterInit(entries, from, e, texts[e])
  }

  /** One turn of `autoInit`'s scan on the entries: an instance is appended
      exactly when the scan appends its element. */
  lemma ExtendsStep(entries: seq<Entry>, pruned: seq<Entry>, marked: seq<Element>, n: nat,
                    query: map<string, Element>, added: Option<ToggleCount>)
    requires n < |marked|
    requires Extends(entries, pruned, marked[..n], query)
    requires added.Some? <==> FindIndex(entries, marked[n]).None? && Resolvable(query)(marked[n])
    requires added.Some? ==> added.value.el == marked[n] && Built(added.value, query)
    ensures Extends(entries + if added.Some? then [Entry(added.value)] else [], pruned, marked[..n + 1], query)
  {
    var tail := if added.Some? then [Entry(added.value)] else [];
    KeysAfterScan(entries, Keys(pruned), marked, n, Resolvable(query), tail);
    BuiltAfterAppend(entries, pruned, tail, query);
  }

  /** The display elements follow the scan one element further. */
  lemma KeysAfterScan(entries: seq<Entry>, keys: seq<Element>, marked: seq<Element>, n: nat,
                      resolvable: Element -> bool, tail: seq<Entry>)
    requires n < |marked|
    requires Keys(entries) == Scan(keys, marked[..n], resolvable)
    requires tail == [] || (|tail| == 1 && tail[0].element.el == marked[n])
    requires tail != [] <==> FindIndex(entries, marked[n]).None? && resolvable(marked[n])
    ensures Keys(entries + tail) == Scan(keys, marked[..n + 1], resolvable)
  {
    ScanPrefix(keys, marked, n, resolvable);
    NotFoundNotKey(entries, marked[n]);
    KeysAppend(entries, tail);
  }

  /** Appending built instances keeps the pruned prefix and builds only. */
  lemma BuiltAfterAppend(entries: seq<Entry>, pruned: seq<Entry>, tail: seq<Entry>, query: map<string, Element>)
    requires |pruned| <= |entries| && entries[..|pruned|] == pruned
    requires forall i :: |pruned| <= i < |entries| ==> Built(entries[i].element, query)
    requires forall i :: 0 <= i < |tail| ==> Built(tail[i].element, query)
    ensures |pruned| <= |entries + tail| && (entries + tail)[..|pruned|] == pruned
    ensures forall i :: |pruned| <= i < |entries + tail| ==> Built((entries + tail)[i].element, query)
  {
    assert (entries + tail)[..|entries|] == entries;
    assert (entries + tail)[..|pruned|] == pruned;
  }

  /** The text `autoInit` leaves on `e`, which showed `before`: the `max` of
      its first instance when that instance is one of those appended from
      position `from` on and is checked, and `before` otherwise. */
  predicate ShowsAfterInit(s: seq<Entry>, from: nat, e: Element, before: Text)
    reads e, Instances(s)
  {
    match FindIndex(s, e)
    case Some(i) => e.text == if from <= i && s[i].element.isChecked then Number(s[i].element.max) else before
    case None => e.text == before
  }

  /** Every entry from position `from` on holds an instance as `init` leaves it. */
  predicate LiveFrom(s: seq<Entry>, from: nat)
    reads Instances(s), set i | from <= i < |s| && s[i].element.target.Some? :: s[i].element.target.value
  {
    forall i :: from <= i < |s| ==> Live(s[i].element)
  }

  /** An instance as `init` leaves it: listening, and checked exactly when its
      control was. */
  predicate Live(c: ToggleCount)
    reads c, if c.target.Some? then {c.target.value} else {}
  {
    c.listening && c.isChecked == (c.target.Some? && c.target.value.checked)
  }

  /** Appending entries never changes an existing first match, and an element
      no entry had is found at the first appended entry for it. */
  lemma FindAfterAppend(s: seq<Entry>, t: seq<Entry>, e: Element)
    ensures FindIndex(s, e).Some? ==> FindIndex(s + t, e) == FindIndex(s, e)
    ensures FindIndex(s, e).None? && t != [] && t[0].element.el == e ==> FindIndex(s + t, e) == Some(|s|)
  {
    var r := FindIndex(s + t, e);
    if FindIndex(s, e).Some? {
      var i := FindIndex(s, e).value;
      assert (s + t)[i] == s[i];
    } else if t != [] && t[0].element.el == e {
      assert (s + t)[|s|] == t[0];
    }
  }

  /** An instance with a target, configured from its element's own options. */
  predicate Built(c: ToggleCount, query: map<string, Element>) {
    c.target.Some? && Configured(c, c.el.data, query)
  }

  /** No entry is found for an element exactly when it is not a display
      element of the entries. */
  lemma NotFoundNotKey(s: seq<Entry>, e: Element)
    ensures FindIndex(s, e).None? <==> e !in Keys(s)
  {
    if e in Keys(s) {
      var i :| 0 <= i < |s| && Keys(s)[i] == e;
      assert s[i].element.el == e;
    }
  }

  /** After `destroy`'s filter, no entry is found for the element. */
  lemma RemovedNotFound(s: seq<Entry>, el: Element)
    ensures FindIndex(Seqs.Filter(s, OtherThan(el)), el).None?
  {
    var r := Seqs.Filter(s, OtherThan(el));
    forall i | 0 <= i < |r| ensures r[i].element.el != el {
      assert r[i] in r;
      assert OtherThan(el)(r[i]);
    }
  }

  /** The display elements after the `autoInit` scan over `marked`, starting
      from the registry's `keys`: a marked element is appended when no entry has
      it and its target resolves. */
  function Scan(keys: seq<Element>, marked: seq<Element>, resolvable: Element -> bool): (r: seq<Element>)
    ensures |keys| <= |r| <= |keys| + |marked|
    ensures forall x :: x in r ==> x in keys || (x in marked && resolvable(x))
    decreases |marked|
  {
    if marked == [] then keys
    else
      var before := Scan(keys, marked[..|marked| - 1], resolvable);
      var m := marked[|marked| - 1];
      assert forall x :: x in marked[..|marked| - 1] ==> x in marked;
      if m !in before && resolvable(m) then before + [m] else before
  }

  /** One more marked element extends the scan when it is new and resolvable,
      and leaves it as it was otherwise. */
  lemma ScanPrefix(keys: seq<Element>, marked: seq<Element>, n: nat, resolvable: Element -> bool)
    requires n < |marked|
    ensures Scan(keys, marked[..n + 1], resolvable) ==
      var before := Scan(keys, marked[..n], resolvable);
      if marked[n] !in before && resolvable(marked[n]) then before + [marked[n]] else before
  {
    assert marked[..n + 1][..n] == marked[..n];
  }

  /** The display elements after `autoInit`: prune, then scan. */
  function AutoInitKeys(keys: seq<Element>, attached: set<Element>, marked: seq<Element>,
                        resolvable: Element -> bool): (r: seq<Element>)
    ensures |r| <= |keys| + |marked|
    ensures forall x :: x in r ==> (x in keys && x in attached) || (x in marked && resolvable(x))
  {
    Scan(Seqs.Filter(keys, Within(attached)), marked, resolvable)
  }

  /** Pruning entries and pruning their display elements agree. */
  lemma {:induction false} KeysOfPrune(s: seq<Entry>, attached: set<Element>)
    ensures Keys(Seqs.Filter(s, Attached(attached))) == Seqs.Filter(Keys(s), Within(attached))
    decreases |s|
  {
    if s != [] {
      var keep, inside := Attached(attached), Within(attached);
      KeysOfPrune(s[1..], attached);
      var head := if keep(s[0]) then [s[0]] else [];
      var rest := Seqs.Filter(s[1..], keep);
      assert Seqs.Filter(s, keep) == head + rest;
      KeysAppend(head, rest);
      assert Keys(s) == [s[0].element.el] + Keys(s[1..]);
      assert Keys(s)[1..] == Keys(s[1..]);
      assert Keys(head) == if inside(s[0].element.el) then [s[0].element.el] else [];
    }
  }

  /** The scan keeps the keys it starts from, in front, and appends only
      resolvable marked elements that were not there. */
  lemma {:induction false} ScanExtends(keys: seq<Element>, marked: seq<Element>, resolvable: Element -> bool)
    ensures |keys| <= |Scan(keys, marked, resolvable)|
    ensures Scan(keys, marked, resolvable)[..|keys|] == keys
    ensures forall i :: |keys| <= i < |Scan(keys, marked, resolvable)| ==>
      Scan(keys, marked, resolvable)[i] in marked && resolvable(Scan(keys, marked, resolvable)[i]) &&
      Scan(keys, marked, resolvable)[i] !in keys
    decreases |marked|
  {
    if marked != [] {
      var init, m := marked[..|marked| - 1], marked[|marked| - 1];
      ScanExtends(keys, init, resolvable);
      var before, after := Scan(keys, init, resolvable), Scan(keys, marked, resolvable);
      assert after == if m !in before && resolvable(m) then before + [m] else before;
      forall i | |keys| <= i < |after|
        ensures after[i] in marked && resolvable(after[i]) && after[i] !in keys
      {
        if i < |before| {
          assert after[i] == before[i];
          assert before[i] in init;
        } else {
          assert after[i] == m;
          assert m !in before[..|keys|];
        }
      }
      assert after[..|keys|] == before[..|keys|];
    }
  }

  /** Every resolvable marked element is among the display elements after the
      scan. */
  lemma {:induction false} ScanCovers(keys: seq<Element>, marked: seq<Element>, resolvable: Element -> bool, m: Element)
    requires m in marked && resolvable(m)
    ensures m in Scan(keys, marked, resolvable)
    decreases |marked|
  {
    var init, last := marked[..|marked| - 1], marked[|marked| - 1];
    var before := Scan(keys, init, resolvable);
    assert Scan(keys, marked, resolvable) == if last !in before && resolvable(last) then before + [last] else before;
    if m != last {
      assert marked == init + [last];
      assert m in init;
      ScanCovers(keys, init, resolvable, m);
    }
  }

  /** A scan finds nothing to add when every resolvable marked element is
      already a key. */
  lemma {:induction false} ScanStable(keys: seq<Element>, marked: seq<Element>, resolvable: Element -> bool)
    requires forall m :: m in marked && resolvable(m) ==> m in keys
    ensures Scan(keys, marked, resolvable) == keys
    decreases |marked|
  {
    if marked != [] {
      var init := marked[..|marked| - 1];
      assert forall m :: m in init ==> m in marked;
      ScanStable(keys, init, resolvable);
    }
  }

  /** The scan never appends an element twice, nor one that is a key. */
  lemma {:induction false} ScanNoDuplicates(keys: seq<Element>, marked: seq<Element>, resolvable: Element -> bool)
    requires Seqs.NoDuplicates(keys)
    ensures Seqs.NoDuplicates(Scan(keys, marked, resolvable))
    decreases |marked|
  {
    if marked != [] {
      var init, m := marked[..|marked| - 1], marked[|marked| - 1];
      ScanNoDuplicates(keys, init, resolvable);
      var before := Scan(keys, init, resolvable);
      if m !in before && resolvable(m) {
        var after := before + [m];
        forall i, j | 0 <= i < j < |after| ensures after[i] != after[j] {
          if j == |before| {
            assert after[i] == before[i];
          }
        }
      }
    }
  }

  /** `autoInit` never registers an element twice: a registry without
      duplicate display elements keeps none. */
  lemma AutoInitUnique(keys: seq<Element>, attached: set<Element>, marked: seq<Element>, resolvable: Element -> bool)
    requires Seqs.NoDuplicates(keys)
    ensures Seqs.NoDuplicates(AutoInitKeys(keys, attached, marked, resolvable))
  {
    Seqs.FilterNoDuplicates(keys, Within(attached));
    ScanNoDuplicates(Seqs.Filter(keys, Within(attached)), marked, resolvable);
  }

  /** Calling `autoInit` again on an unchanged document changes no display
      element: the marked elements are attached, so nothing more is pruned, and
      every resolvable one already has an entry. */
  lemma AutoInitIdempotent(keys: seq<Element>, attached: set<Element>, marked: seq<Element>, resolvable: Element -> bool)
    requires forall m :: m in marked ==> m in attached
    ensures var once := AutoInitKeys(keys, attached, marked, resolvable);
      AutoInitKeys(once, attached, marked, resolvable) == once
  {
    var pruned := Seqs.Filter(keys, Within(attached));
    var once := Scan(pruned, marked, resolvable);
    ScanExtends(pruned, marked, resolvable);
    forall x | x in once ensures Within(attached)(x) {
      var i :| 0 <= i < |once| && once[i] == x;
      if i < |pruned| {
        assert once[i] == once[..|pruned|][i];
        assert x in pruned;
      }
    }
    Seqs.FilterKeepsAll(once, Within(attached));
    forall m | m in marked && resolvable(m) ensures m in once {
      ScanCovers(pruned, marked, resolvable, m);
    }
    ScanStable(once, marked, resolvable);
  }

  /** Removing one element's entries finds nothing for it and leaves the
      first match of every other element as it was. */
  lemma {:induction false} FindAfterRemove(s: seq<Entry>, el: Element, x: Element)
    ensures Find(Seqs.Filter(s, OtherThan(el)), x) == if x == el then None else Find(s, x)
    decreases |s|
  {
    if s != [] {
      FindAfterRemove(s[1..], el, x);
      var head := if OtherThan(el)(s[0]) then [s[0]] else [];
      FindAfterFilterHead(head, Seqs.Filter(s[1..], OtherThan(el)), x);
    } else {
      assert Seqs.Filter(s, OtherThan(el)) == [];
    }
  }

  /** Pruning finds the same first match for an attached element and none for a
      detached one. */
  lemma {:induction false} FindAfterPrune(s: seq<Entry>, attached: set<Element>, x: Element)
    ensures Find(Seqs.Filter(s, Attached(attached)), x) == if x in attached then Find(s, x) else None
    decreases |s|
  {
    if s != [] {
      FindAfterPrune(s[1..], attached, x);
      var head := if Attached(attached)(s[0]) then [s[0]] else [];
      FindAfterFilterHead(head, Seqs.Filter(s[1..], Attached(attached)), x);
    } else {
      assert Seqs.Filter(s, Attached(attached)) == [];
    }
  }

  /** `find` over a sequence of at most one entry followed by more. */
  lemma FindAfterFilterHead(head: seq<Entry>, rest: seq<Entry>, x: Element)
    requires |head| <= 1
    ensures Find(head + rest, x) ==
      if head != [] && head[0].element.el == x then Some(head[0]) else Find(rest, x)
  {
    if head != [] {
      assert (head + rest)[1..] == rest;
    } else {
      assert head + rest == rest;
    }
  }
}
