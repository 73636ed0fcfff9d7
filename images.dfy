/** `generate_image` (app.py:25-36): a stand-in for an image search that
    picks a placeholder picture by looking for fixed keywords in the topic. */
module Images {
  import opened Text

  const RedesSociaisUrl: string := "https://via.placeholder.com/600x300?text=Redes+Sociais"
  const EducacaoUrl: string := "https://via.placeholder.com/600x300?text=Educação"
  const TecnologiaUrl: string := "https://via.placeholder.com/600x300?text=Tecnologia"
  const SaudeUrl: string := "https://via.placeholder.com/600x300?text=Saúde"

  /** The picture returned when no keyword matches. */
  const GenericUrl: string := "https://via.placeholder.com/600x300?text=Imagem+Genérica"

  /** The keyword table, as (key, url) pairs in the dictionary's insertion
      order, which is the order Python iterates it in. */
  const Table: seq<(string, string)> := [
    ("redes sociais", RedesSociaisUrl),
    ("educação", EducacaoUrl),
    ("tecnologia", TecnologiaUrl),
    ("saúde", SaudeUrl)
  ]

  /** `key.lower() in topic.lower()`. */
  predicate Matches(key: string, topic: string) {
    Contains(Lower(topic), Lower(key))
  }

  /** The `for key in images` loop over the remaining `entries`: the url of
      the first entry whose key matches, or the generic url. */
  function Search(entries: seq<(string, string)>, topic: string): string {
    if entries == [] then GenericUrl
    else if Matches(entries[0].0, topic) then entries[0].1
    else Search(entries[1..], topic)
  }

  /** `generate_image(topic)`. */
  function GenerateImage(topic: string): (url: string)
    ensures url in {RedesSociaisUrl, EducacaoUrl, TecnologiaUrl, SaudeUrl, GenericUrl}
  {
    SearchResultIn(Table, topic);
    Search(Table, topic)
  }

  /** The search returns the url of some entry or the generic one. */
  lemma {:induction false} SearchResultIn(entries: seq<(string, string)>, topic: string)
    ensures Search(entries, topic) == GenericUrl
            || exists i :: 0 <= i < |entries| && Search(entries, topic) == entries[i].1
  {
    if entries != [] && !Matches(entries[0].0, topic) {
      SearchResultIn(entries[1..], topic);
      if Search(entries, topic) != GenericUrl {
        var i :| 0 <= i < |entries[1..]| && Search(entries, topic) == entries[1..][i].1;
        assert entries[i + 1] == entries[1..][i];
      }
    }
  }

  /** The urls of `entries` are pairwise distinct and none is the generic url. */
  predicate DistinctUrls(entries: seq<(string, string)>) {
    && (forall i :: 0 <= i < |entries| ==> entries[i].1 != GenericUrl)
    && (forall i, j :: 0 <= i < j < |entries| ==> entries[i].1 != entries[j].1)
  }

  /** The search returns entry `i`'s url exactly when entry `i`'s key is the
      first that matches. */
  lemma {:induction false} SearchFirstMatchIff(entries: seq<(string, string)>, topic: string, i: nat)
    requires DistinctUrls(entries) && i < |entries|
    ensures Search(entries, topic) == entries[i].1 <==>
            Matches(entries[i].0, topic) && forall j :: 0 <= j < i ==> !Matches(entries[j].0, topic)
  {
    if i == 0 {
      if !Matches(entries[0].0, topic) {
        SearchResultIn(entries[1..], topic);
      }
    } else if Matches(entries[0].0, topic) {
      assert entries[0].1 != entries[i].1;
    } else {
      assert DistinctUrls(entries[1..]) by {
        forall a, b | 0 <= a < b < |entries[1..]| ensures entries[1..][a].1 != entries[1..][b].1 {
          assert entries[1..][a] == entries[a + 1] && entries[1..][b] == entries[b + 1];
        }
      }
      SearchFirstMatchIff(entries[1..], topic, i - 1);
      if Matches(entries[i].0, topic) && forall j :: 0 <= j < i ==> !Matches(entries[j].0, topic) {
        forall j | 0 <= j < i - 1 ensures !Matches(entries[1..][j].0, topic) {
          assert entries[1..][j] == entries[j + 1];
        }
      }
      if Search(entries, topic) == entries[i].1 {
        forall j | 0 <= j < i ensures !Matches(entries[j].0, topic) {
          if j > 0 {
            assert entries[1..][j - 1] == entries[j];
          }
        }
      }
    }
  }

  /** The search falls back to the generic url exactly when no key matches. */
  lemma {:induction false} SearchGenericIff(entries: seq<(string, string)>, topic: string)
    requires forall i :: 0 <= i < |entries| ==> entries[i].1 != GenericUrl
    ensures Search(entries, topic) == GenericUrl <==>
            forall j :: 0 <= j < |entries| ==> !Matches(entries[j].0, topic)
  {
    if entries != [] && !Matches(entries[0].0, topic) {
      SearchGenericIff(entries[1..], topic);
      assert forall j :: 0 <= j < |entries[1..]| ==> entries[1..][j] == entries[j + 1];
      if Search(entries, topic) == GenericUrl {
        forall j | 0 <= j < |entries| ensures !Matches(entries[j].0, topic) {
          if j > 0 {
            assert entries[1..][j - 1] == entries[j];
          }
        }
      }
    }
  }

  lemma TableDistinctUrls()
    ensures DistinctUrls(Table)
  {
  }

  /** `generate_image` returns the generic picture exactly when no key
      occurs in the topic, compared case-insensitively. */
  lemma ImageGenericIff(topic: string)
    ensures GenerateImage(topic) == GenericUrl <==>
            forall j :: 0 <= j < |Table| ==> !Contains(Lower(topic), Lower(Table[j].0))
  {
    TableDistinctUrls();
    SearchGenericIff(Table, topic);
  }

  /** `generate_image` returns the url of key `i` exactly when key `i` is the
      first key, in table order, that occurs in the lower-cased topic. */
  lemma ImageFirstMatchIff(topic: string, i: nat)
    requires i < |Table|
    ensures GenerateImage(topic) == Table[i].1 <==>
            Contains(Lower(topic), Lower(Table[i].0))
            && forall j :: 0 <= j < i ==> !Contains(Lower(topic), Lower(Table[j].0))
  {
    TableDistinctUrls();
    SearchFirstMatchIff(Table, topic, i);
  }

  /** The picture depends only on the lower-cased topic. */
  lemma {:induction false} SearchCaseInsensitive(entries: seq<(string, string)>, a: string, b: string)
    requires Lower(a) == Lower(b)
    ensures Search(entries, a) == Search(entries, b)
  {
    if entries != [] {
      SearchCaseInsensitive(entries[1..], a, b);
    }
  }

  lemma ImageCaseInsensitive(topic: string)
    ensures GenerateImage(topic) == GenerateImage(Lower(topic))
  {
    LowerIdempotent(topic);
    SearchCaseInsensitive(Table, topic, Lower(topic));
  }

  /** The keys are already in lower case, so `key.lower()` is the key. */
  lemma TableKeysLower()
    ensures forall j :: 0 <= j < |Table| ==> Lower(Table[j].0) == Table[j].0
  {
    assert Lower(Table[0].0) == Table[0].0;
    assert Lower(Table[1].0) == Table[1].0;
    assert Lower(Table[2].0) == Table[2].0;
    assert Lower(Table[3].0) == Table[3].0;
  }

  /** A topic naming two keys gets the picture of the earlier key in the
      table, whatever its capitalisation. */
  lemma ImagePriorityExample()
    ensures GenerateImage("Redes Sociais e Saúde") == RedesSociaisUrl
  {
    var topic := "Redes Sociais e Saúde";
    assert Lower(Table[0].0) == "redes sociais";
    assert OccursAt(Lower(topic), "redes sociais", 0) by {
      assert Lower(topic)[..13] == "redes sociais";
    }
    ContainsIff(Lower(topic), "redes sociais");
    ImageFirstMatchIff(topic, 0);
  }
}
