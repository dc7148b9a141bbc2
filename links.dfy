/** The links of a year's results page: each tab button of the page becomes a
  * key of that year's entry in the year → links dictionary. */
module Links {
  import opened Text

  /** A tab button: its label text and the relative URL in its
    * `data-tabs-ajax` attribute. */
  datatype Button = Button(text: string, target: string)

  /** `b.text.lower().replace(' ', '_') + '_url'`: the normalised label with
    * `_url` appended. */
  function LinkKey(name: string): string {
    SnakeCase(name) + "_url"
  }

  /** A link key ends in `_url` after as many characters as the label has,
    * and holds no space and no upper-case letter. */
  lemma LinkKeySpec(name: string)
    ensures |LinkKey(name)| == |name| + 4 && LinkKey(name)[|name|..] == "_url"
    ensures forall i :: 0 <= i < |LinkKey(name)| ==> LinkKey(name)[i] != ' ' && !IsUpper(LinkKey(name)[i])
  {
    SnakeCaseSpec(name);
    var key := LinkKey(name);
    forall i | |name| <= i < |key| ensures key[i] != ' ' && !IsUpper(key[i]) {
      assert key[i] == "_url"[i - |name|];
    }
  }

  /** Two labels give the same key exactly when they normalise alike. */
  lemma LinkKeyInjective(a: string, b: string)
    ensures LinkKey(a) == LinkKey(b) <==> SnakeCase(a) == SnakeCase(b)
  {
    LinkKeySpec(a);
    LinkKeySpec(b);
    if LinkKey(a) == LinkKey(b) {
      assert SnakeCase(a) == LinkKey(a)[..|a|];
      assert SnakeCase(b) == LinkKey(b)[..|b|];
    }
  }

  /** No button can produce the key `mainurl`, which the year's entry already
    * holds: every link key ends in `_url`. */
  lemma LinkKeyIsNotMainUrl(name: string)
    ensures LinkKey(name) != "mainurl"
  {
    var key := LinkKey(name);
    LinkKeySpec(name);
    if |name| == 3 {
      assert key[3] == '_';
      assert "mainurl"[3] == 'n';
    }
  }

  function KeyOf(b: Button): string {
    LinkKey(b.text)
  }

  /** The entry of one year after assigning every button's target to its
    * key, in button order. */
  function WithButtons(links: map<string, string>, buttons: seq<Button>): map<string, string> {
    if buttons == [] then links
    else
      var last := buttons[|buttons| - 1];
      WithButtons(links, buttons[..|buttons| - 1])[KeyOf(last) := last.target]
  }

  /** The keys of a year's entry after its buttons: the old keys and the
    * keys of the buttons. */
  lemma {:induction false} WithButtonsKeys(links: map<string, string>, buttons: seq<Button>, k: string)
    ensures k in WithButtons(links, buttons) <==>
              (k in links || exists i :: 0 <= i < |buttons| && KeyOf(buttons[i]) == k)
  {
    if buttons != [] {
      var init := buttons[..|buttons| - 1];
      WithButtonsKeys(links, init, k);
      if exists i :: 0 <= i < |init| && KeyOf(init[i]) == k {
        var i :| 0 <= i < |init| && KeyOf(init[i]) == k;
        assert buttons[i] == init[i];
      }
      if exists i :: 0 <= i < |buttons| && KeyOf(buttons[i]) == k {
        var i :| 0 <= i < |buttons| && KeyOf(buttons[i]) == k;
        if i < |init| {
          assert init[i] == buttons[i];
        }
      }
    }
  }

  /** A button's key holds that button's target when no later button has
    * the same key: the last button with a key wins. */
  lemma {:induction false} WithButtonsLastWins(links: map<string, string>, buttons: seq<Button>, i: nat)
    requires i < |buttons|
    requires forall j :: i < j < |buttons| ==> KeyOf(buttons[j]) != KeyOf(buttons[i])
    ensures KeyOf(buttons[i]) in WithButtons(links, buttons)
    ensures WithButtons(links, buttons)[KeyOf(buttons[i])] == buttons[i].target
  {
    var init := buttons[..|buttons| - 1];
    if i < |init| {
      assert init[i] == buttons[i];
      assert forall j :: i < j < |init| ==> init[j] == buttons[j];
      WithButtonsLastWins(links, init, i);
    }
  }

  /** A key that no button produces keeps its old value. */
  lemma {:induction false} WithButtonsKeepsOthers(links: map<string, string>, buttons: seq<Button>, k: string)
    requires k in links
    requires forall i :: 0 <= i < |buttons| ==> KeyOf(buttons[i]) != k
    ensures k in WithButtons(links, buttons) && WithButtons(links, buttons)[k] == links[k]
  {
    if buttons != [] {
      var init := buttons[..|buttons| - 1];
      assert forall i :: 0 <= i < |init| ==> init[i] == buttons[i];
      WithButtonsKeepsOthers(links, init, k);
    }
  }

  /** The `mainurl` entry of a year survives any buttons. */
  lemma MainUrlKept(links: map<string, string>, buttons: seq<Button>)
    requires "mainurl" in links
    ensures "mainurl" in WithButtons(links, buttons)
    ensures WithButtons(links, buttons)["mainurl"] == links["mainurl"]
  {
    forall i | 0 <= i < |buttons| ensures KeyOf(buttons[i]) != "mainurl" {
      LinkKeyIsNotMainUrl(buttons[i].text);
    }
    WithButtonsKeepsOthers(links, buttons, "mainurl");
  }

  /** The year → links dictionary, updated in place. */
  class YearLinks {
    var links: map<int, map<string, string>>

    constructor (links: map<int, map<string, string>>)
      ensures this.links == links
    {
      this.links := links;
    }

    /** The loop over one year's buttons: every button's target is written
      * under its key into that year's entry; nothing else changes. */
    method AddButtons(year: int, buttons: seq<Button>)
      requires year in links
      modifies this
      ensures links == old(links)[year := WithButtons(old(links)[year], buttons)]
    {
      for i := 0 to |buttons|
        invariant links == old(links)[year := WithButtons(old(links)[year], buttons[..i])]
      {
        var b := buttons[i];
        var newKey := LinkKey(b.text);
        assert buttons[..i + 1][..i] == buttons[..i];
        links := links[year := links[year][newKey := b.target]];
      }
      assert buttons[..|buttons|] == buttons;
    }
  }

  /** Every year of `years` once, and each has an entry and buttons. */
  ghost predicate CoversYears(links: map<int, map<string, string>>, years: seq<int>,
                        buttonsOf: map<int, seq<Button>>)
  {
    && (forall y :: y in links <==> y in years)
    && (forall i, j :: 0 <= i < j < |years| ==> years[i] != years[j])
    && (forall y :: y in links ==> y in buttonsOf)
  }

  /** The loop over the years of the dictionary, each year's buttons given
    * (they come from a page fetch): every year's entry receives its buttons'
    * links, and the set of years is unchanged. */
  method AddLinksToDict(d: YearLinks, years: seq<int>, buttonsOf: map<int, seq<Button>>)
    requires CoversYears(d.links, years, buttonsOf)
    modifies d
    ensures d.links.Keys == old(d.links).Keys
    ensures forall y :: y in d.links ==> d.links[y] == WithButtons(old(d.links)[y], buttonsOf[y])
  {
    for i := 0 to |years|
      invariant d.links.Keys == old(d.links).Keys
      invariant forall y :: y in d.links && y in years[..i] ==>
                  d.links[y] == WithButtons(old(d.links)[y], buttonsOf[y])
      invariant forall y :: y in d.links && y !in years[..i] ==> d.links[y] == old(d.links)[y]
    {
      var year := years[i];
      assert year !in years[..i];
      d.AddButtons(year, buttonsOf[year]);
      assert years[..i + 1] == years[..i] + [year];
    }
    assert years[..|years|] == years;
  }
}
