/** The dictionary configs of models/config.py, and why startup can treat them one by one. */
module ConfigKeys {
  import opened Basics
  import opened ConfigStartup
  import opened ConfigRepair

  const KEYS: seq<string> := [
    "openai.api_configs", "anthropic.api_configs", "ollama.api_configs", "rag.mineru_params", "rag.docling_params",
    "web.search.linkup_search_params", "image_generation.automatic1111.api_params", "image_generation.openai.params",
    "audio.tts.openai.params", "models.default_metadata", "models.default_params", "user.permissions"]

  const ALIASES: seq<string> := [
    "OPENAI_API_CONFIGS", "ANTHROPIC_API_CONFIGS", "OLLAMA_API_CONFIGS", "MINERU_PARAMS", "DOCLING_PARAMS",
    "LINKUP_SEARCH_PARAMS", "AUTOMATIC1111_PARAMS", "IMAGES_OPENAI_API_PARAMS", "AUDIO_TTS_OPENAI_PARAMS",
    "DEFAULT_MODEL_METADATA", "DEFAULT_MODEL_PARAMS", "USER_PERMISSIONS"]

  /** Each key with its one alias; the first three map connections to API settings. */
  function Config(i: nat): (c: DictConfig)
    requires i < 12
  {
    DictConfig(KEYS[i], [KEYS[i], ALIASES[i]], i < 3)
  }

  const CONFIGS: seq<DictConfig> := seq(12, i requires 0 <= i < 12 => Config(i))

  lemma KeyNotUnderAlias(k: string, p: string)
    requires k in KEYS && p in ALIASES
    ensures !Under(k, p)
  {
    assert 'a' <= k[0];
    assert p[0] <= 'Z';
  }

  /** Characters at which two different keys always differ somewhere. */
  predicate Apart(k: string, p: string) {
    || k == p
    || (|k| > 15 && |p| > 15 && (k[0] != p[0] || k[1] != p[1] || k[4] != p[4] || k[15] != p[15]))
    || (|k| > 17 && |p| > 17 && k[17] != p[17])
  }

  lemma KeysApart0(k: string, p: string)
    requires k in KEYS[..4] && p in KEYS
    ensures Apart(k, p)
  {
  }

  lemma KeysApart4(k: string, p: string)
    requires k in KEYS[4..6] && p in KEYS
    ensures Apart(k, p)
  {
  }

  lemma KeysApart6(k: string, p: string)
    requires k in KEYS[6..8] && p in KEYS
    ensures Apart(k, p)
  {
  }

  lemma KeysApart8(k: string, p: string)
    requires k in KEYS[8..] && p in KEYS
    ensures Apart(k, p)
  {
  }

  /** No key lies under another, or under itself. */
  lemma KeyNotUnderKey(k: string, p: string)
    requires k in KEYS && p in KEYS
    ensures !Under(k, p)
  {
    assert KEYS == KEYS[..4] + KEYS[4..6] + KEYS[6..8] + KEYS[8..];
    if k in KEYS[..4] {
      KeysApart0(k, p);
    } else if k in KEYS[4..6] {
      KeysApart4(k, p);
    } else if k in KEYS[6..8] {
      KeysApart6(k, p);
    } else {
      KeysApart8(k, p);
    }
    ApartNotUnder(k, p);
  }

  lemma ApartNotUnder(k: string, p: string)
    requires Apart(k, p)
    ensures !Under(k, p)
  {
  }

  lemma KeysDistinct(i: nat, j: nat)
    requires i < j < 12
    ensures KEYS[i] != KEYS[j]
  {
  }

  /** The configs can be repaired one by one: no config key carries a prefix of a config, and keys are distinct. */
  lemma ConfigsSeparated()
    ensures Separated(CONFIGS)
  {
    forall i: nat, j: nat | i < 12 && j < 12 ensures FragmentOf(CONFIGS[j].prefixes, CONFIGS[i].key).None? {
      KeyNotUnderKey(KEYS[i], KEYS[j]);
      KeyNotUnderAlias(KEYS[i], ALIASES[j]);
      TwoPrefixes(KEYS[j], ALIASES[j], KEYS[i]);
    }
    forall i: nat, j: nat | i < j < 12 ensures CONFIGS[i].key != CONFIGS[j].key {
      KeysDistinct(i, j);
    }
  }

  lemma TwoPrefixes(a: string, b: string, k: string)
    ensures FragmentOf([a, b], k).None? <==> !Under(k, a) && !Under(k, b)
  {
    assert FragmentOf([b], k).None? <==> !Under(k, b) by { assert FragmentOf([b][1..], k) == None; }
    assert [a, b][1..] == [b];
  }

  /** Startup renames `rag.web` to `web`: neither begins the other, and no config key lies under the old one. */
  lemma RenameIsSafe()
    ensures NotNested("rag.web", "web") && forall c :: c in CONFIGS ==> !Under(c.key, "rag.web")
  {
    assert ("rag.web" + ".")[0] == 'r' && ("web" + ".")[0] == 'w';
    forall c | c in CONFIGS ensures !Under(c.key, "rag.web") {
      var i :| 0 <= i < 12 && c == CONFIGS[i];
      NotUnderRagWeb(KEYS[i]);
    }
  }

  lemma NotUnderRagWeb(k: string)
    requires k in KEYS
    ensures !Under(k, "rag.web")
  {
    assert k[0] != 'r' || k[4] != 'w';
    assert ("rag.web" + ".")[0] == 'r' && ("rag.web" + ".")[4] == 'w';
  }

  /** So startup on this table is idempotent, provided no default key lies under a rewritten prefix. */
  lemma StartupIdempotent(defaults: Table, persistent: bool, t: Table, r: Table, again: Table)
    requires defaults.Valid() && t.Valid()
    requires forall k :: k in defaults.at ==> !Under(k, "rag.web") && forall c :: c in CONFIGS ==>
              FragmentOf(c.prefixes, k).None?
    requires var u := Startup("rag.web", "web", CONFIGS, defaults, persistent);
             Normalizes(u, t, r) && Normalizes(u, r, again)
    ensures again == r
  {
    ConfigsSeparated();
    RenameIsSafe();
    NormalizeIdempotent(Startup("rag.web", "web", CONFIGS, defaults, persistent), t, r, again);
  }
}
