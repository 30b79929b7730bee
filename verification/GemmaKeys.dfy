/** The key namespace of the gemma-QAT checkpoint importer `convert_gemma_import.rs`: which wrapper
    prefix a raw key loses, which namespace it gains, and which route it takes. */
module GemmaKeys {
  import opened Wrappers
  import opened Sequences
  import opened Decimals

  predicate Contains(s: string, part: string) {
    exists i :: 0 <= i <= |s| - |part| && part <= s[i..]
  }

  /** The HF wrapper prefixes, tried in order. */
  function StripHfPrefix(key: string): string {
    if "model.language_model.model." <= key then key[|"model.language_model.model."|..]
    else if "model.language_model." <= key then key[|"model.language_model."|..]
    else if "language_model.model." <= key then key[|"language_model.model."|..]
    else if "language_model." <= key then key[|"language_model."|..]
    else if "model." <= key then key[|"model."|..]
    else key
  }

  const NAMESPACE := "language_model.model."

  predicate KeepsBareKey(stripped: string) {
    || "vision_tower." <= stripped || "vision_encoder." <= stripped
    || "embed_vision." <= stripped || "multi_modal_projector." <= stripped
  }

  function NamespacedKey(stripped: string): string {
    if KeepsBareKey(stripped) then stripped else NAMESPACE + stripped
  }

  predicate IsDropped(stripped: string) {
    || EndsWith(stripped, ".input_activation_scale") || EndsWith(stripped, ".output_activation_scale")
    || EndsWith(stripped, ".k_cache_scale") || EndsWith(stripped, ".v_cache_scale")
  }

  predicate IsSkipped(stripped: string) {
    || "audio_tower." <= stripped || "audio_encoder." <= stripped || "embed_audio." <= stripped
    || Contains(stripped, "relative_k_proj") || EndsWith(stripped, ".per_dim_scale") || Contains(stripped, "rotary_emb")
  }

  // ---------------------------------------------------------------- the keys by name

  ghost predicate Ends(s: string, suffix: string) {
    exists m :: s == m + suffix
  }

  ghost predicate Mentions(s: string, part: string) {
    exists a, b :: s == a + part + b
  }

  lemma EndsIs(s: string, suffix: string)
    ensures EndsWith(s, suffix) <==> Ends(s, suffix)
  {
    if EndsWith(s, suffix) {
      assert s == s[..|s| - |suffix|] + suffix;
    }
    if Ends(s, suffix) {
      var m :| s == m + suffix;
      assert s[|s| - |suffix|..] == suffix;
    }
  }

  lemma MentionsIs(s: string, part: string)
    ensures Contains(s, part) <==> Mentions(s, part)
  {
    if Contains(s, part) { ContainsMentions(s, part); }
    if Mentions(s, part) {
      var a, b :| s == a + part + b;
      assert s[|a|..] == part + b;
    }
  }

  lemma ContainsMentions(s: string, part: string)
    requires Contains(s, part)
    ensures Mentions(s, part)
  {
    var i :| 0 <= i <= |s| - |part| && part <= s[i..];
    var b := s[i..][|part|..];
    assert s[i..] == part + b;
    assert s == s[..i] + part + b;
  }

  /** Which tensors the importer leaves out: activation and cache scales, audio modules, and what belongs to
      relative or rotary positions. */
  lemma LeftOutByName(s: string)
    ensures IsDropped(s) <==> Ends(s, ".input_activation_scale") || Ends(s, ".output_activation_scale")
                              || Ends(s, ".k_cache_scale") || Ends(s, ".v_cache_scale")
    ensures IsSkipped(s) <==> "audio_tower." <= s || "audio_encoder." <= s || "embed_audio." <= s
                              || Mentions(s, "relative_k_proj") || Ends(s, ".per_dim_scale") || Mentions(s, "rotary_emb")
  {
    hide EndsWith, Ends, Contains, Mentions;
    EndsIs(s, ".input_activation_scale");
    EndsIs(s, ".output_activation_scale");
    EndsIs(s, ".k_cache_scale");
    EndsIs(s, ".v_cache_scale");
    EndsIs(s, ".per_dim_scale");
    MentionsIs(s, "relative_k_proj");
    MentionsIs(s, "rotary_emb");
  }

  /** Stripping takes off an optional `model.`, then an optional `language_model.` with an optional `model.`
      behind it, and nothing else. */
  lemma StripByName(key: string)
    ensures "model." <= key && "language_model." <= key[6..] ==> StripHfPrefix(key) == StripModel(key[21..])
    ensures "model." <= key && !("language_model." <= key[6..]) ==> StripHfPrefix(key) == key[6..]
    ensures "language_model." <= key ==> StripHfPrefix(key) == StripModel(key[15..])
    ensures !("model." <= key) && !("language_model." <= key) ==> StripHfPrefix(key) == key
  {
    var model, language := "model.", "language_model.";
    assert |model| == 6 && |language| == 15;
    assert model + language == "model.language_model." && language + model == "language_model.model.";
    assert model + (language + model) == "model.language_model.model.";
    FirstTwo(key, model);
    FirstTwo(key, language);
    Behind(model, language, key);
    Behind(model, language + model, key);
    Behind(language, model, key);
    if model <= key { Behind(language, model, key[6..]); }
  }

  ghost function StripModel(rest: string): string {
    if "model." <= rest then rest[6..] else rest
  }

  lemma Behind(a: string, b: string, key: string)
    ensures a + b <= key <==> a <= key && b <= key[|a|..]
  {
    if a <= key {
      assert key == a + key[|a|..];
    }
  }

  /** Vision modules keep their name, all others move into one namespace. */
  lemma NamespaceByName(s: string)
    ensures NamespacedKey(s) == if "vision_tower." <= s || "vision_encoder." <= s || "embed_vision." <= s || "multi_modal_projector." <= s
                                then s else "language_model.model." + s
  {
  }

  lemma FirstTwo(key: string, prefix: string)
    requires |prefix| >= 2
    ensures prefix <= key ==> key[0] == prefix[0] && key[1] == prefix[1]
  {
  }

  /** Keys that keep their bare name carry no wrapper prefix. */
  lemma BareKeyHasNoWrapper(stripped: string, suffix: string)
    requires KeepsBareKey(stripped)
    ensures StripHfPrefix(stripped + suffix) == stripped + suffix
  {
    BareKeyStart(stripped);
    hide KeepsBareKey;
    assert (stripped + suffix)[0] == stripped[0] && (stripped + suffix)[1] == stripped[1];
    NoWrapper(stripped + suffix);
  }

  lemma BareKeyStart(stripped: string)
    requires KeepsBareKey(stripped)
    ensures |stripped| >= 2 && stripped[0] != 'l' && (stripped[0] == 'm' ==> stripped[1] != 'o')
  {
    FirstTwo(stripped, "vision_tower.");
    FirstTwo(stripped, "vision_encoder.");
    FirstTwo(stripped, "embed_vision.");
    FirstTwo(stripped, "multi_modal_projector.");
  }

  lemma NoWrapper(key: string)
    requires |key| >= 2 && key[0] != 'l' && (key[0] == 'm' ==> key[1] != 'o')
    ensures StripHfPrefix(key) == key
  {
    FirstTwo(key, "model.language_model.model.");
    FirstTwo(key, "model.language_model.");
    FirstTwo(key, "language_model.model.");
    FirstTwo(key, "language_model.");
    FirstTwo(key, "model.");
  }

  lemma NamespaceIsWrapper(rest: string)
    ensures StripHfPrefix(NAMESPACE + rest) == rest
  {
    FirstTwo(NAMESPACE + rest, "model.language_model.model.");
    FirstTwo(NAMESPACE + rest, "model.language_model.");
    assert NAMESPACE <= NAMESPACE + rest;
  }

  /** Stripping undoes the namespace, also under an appended suffix, so distinct modules never share
      an output key. */
  lemma StripUndoesNamespace(stripped: string, suffix: string)
    ensures StripHfPrefix(NamespacedKey(stripped) + suffix) == stripped + suffix
  {
    hide StripHfPrefix;
    if KeepsBareKey(stripped) {
      BareKeyHasNoWrapper(stripped, suffix);
    } else {
      NamespaceIsWrapper(stripped + suffix);
      assert NAMESPACE + stripped + suffix == NAMESPACE + (stripped + suffix);
    }
  }

  lemma NamespaceInjective(a: string, b: string)
    requires NamespacedKey(a) == NamespacedKey(b)
    ensures a == b
  {
    StripUndoesNamespace(a, "");
    StripUndoesNamespace(b, "");
    assert NamespacedKey(a) + "" == NamespacedKey(a) && NamespacedKey(b) + "" == NamespacedKey(b);
    assert a + "" == a && b + "" == b;
  }

  // ---------------------------------------------------------------- the bit schedule

  /** The last layer whose MLP is packed in 4 bits. */
  const WIDE_LAYERS := 14

  /** Decimal parse of a 64-bit `usize`, which also accepts a leading plus sign. */
  function ParseUsize(s: string): Option<nat> {
    var digits := if "+" <= s then s[1..] else s;
    if digits == "" || !AllDigits(digits) then None
    else if Digits(digits) >= 0x1_0000_0000_0000_0000 then None
    else Some(Digits(digits))
  }

  /** A number is read from its decimal digits, with an optional plus sign, when it fits 64 bits. */
  lemma ParsesExactlyWhen(s: string, n: nat)
    ensures ParseUsize(s) == Some(n)
            <==> n < 18446744073709551616 && exists d :: d != "" && AllDigits(d) && Digits(d) == n && (s == d || s == "+" + d)
  {
    hide Digits;
    if ParseUsize(s) == Some(n) {
      var d := if "+" <= s then s[1..] else s;
      assert d != "" && AllDigits(d) && Digits(d) == n && (s == d || s == "+" + d);
    }
    if n < 18446744073709551616 && exists d :: d != "" && AllDigits(d) && Digits(d) == n && (s == d || s == "+" + d) {
      var d :| d != "" && AllDigits(d) && Digits(d) == n && (s == d || s == "+" + d);
      assert d[0] in d && IsDigit(d[0]);
      if s != d { assert s[1..] == d; }
    }
  }

  predicate IsAttention(tail: string) {
    || "self_attn.q_proj" <= tail || "self_attn.k_proj" <= tail
    || "self_attn.v_proj" <= tail || "self_attn.o_proj" <= tail
  }

  predicate IsMlp(tail: string) {
    "mlp.gate_proj" <= tail || "mlp.up_proj" <= tail || "mlp.down_proj" <= tail
  }

  function TextLinearBits(stripped: string): (bits: Option<nat>)
    ensures bits.Some? ==> bits.value == 2 || bits.value == 4
  {
    if !("layers." <= stripped) then None
    else
      var rest := stripped[|"layers."|..];
      match FindDot(rest)
      case None => None
      case Some(dot) =>
        match ParseUsize(rest[..dot])
        case None => None
        case Some(layer) =>
          var tail := rest[dot + 1..];
          if IsAttention(tail) then Some(4)
          else if IsMlp(tail) then Some(if layer <= WIDE_LAYERS then 4 else 2)
          else None
  }

  // ---------------------------------------------------------------- against the declared schedule

  /** Bits the checkpoint declares for the MLP of the layer spelled `layer`: the first of the patterns
      `(\d|1[0-4])` (4 bits) and `\d+` (2 bits) that matches. */
  function DeclaredMlpBits(layer: string): Option<nat> {
    if layer == "" || !AllDigits(layer) then None
    else if |layer| == 1 || (|layer| == 2 && layer[0] == '1' && layer[1] <= '4') then Some(4)
    else Some(2)
  }

  lemma {:induction false} DigitsAtLeast(s: string)
    requires AllDigits(s) && s != "" && s[0] != '0'
    ensures Digits(s) >= 1 && (|s| > 1 ==> Digits(s) >= 10) && (|s| > 2 ==> Digits(s) >= 100)
  {
    assert s[0] in s && s[|s| - 1] in s;
    if |s| == 1 {
      assert Digits(s[..0]) == 0;
    } else {
      DigitsAtLeast(s[..|s| - 1]);
    }
  }

  /** A layer number without a leading zero is wide exactly when the first pattern spells it. */
  lemma WideLayer(layer: string)
    requires AllDigits(layer) && layer != "" && (|layer| == 1 || layer[0] != '0')
    ensures Digits(layer) <= WIDE_LAYERS <==> DeclaredMlpBits(layer) == Some(4)
  {
    var last := layer[|layer| - 1];
    assert layer[0] in layer && last in layer;
    if |layer| == 1 {
      assert Digits(layer[..0]) == 0;
    } else if |layer| == 2 {
      assert Digits(layer[..1]) == Digits(layer[..1][..0]) * 10 + (layer[0] as int - '0' as int);
    } else {
      DigitsAtLeast(layer);
    }
  }

  lemma ParseDigits(layer: string)
    requires AllDigits(layer) && layer != ""
    ensures ParseUsize(layer) == if Digits(layer) < 0x1_0000_0000_0000_0000 then Some(Digits(layer)) else None
  {
    assert layer[0] in layer;
  }

  /** The route of a layer's module, for every spelling of the layer. */
  lemma TextLinearRoute(layer: string, tail: string)
    requires '.' !in layer
    ensures var stripped := "layers." + layer + "." + tail;
            TextLinearBits(stripped) ==
            match ParseUsize(layer)
            case None => None
            case Some(n) => if IsAttention(tail) then Some(4) else if IsMlp(tail) then Some(if n <= WIDE_LAYERS then 4 else 2) else None
  {
    hide ParseUsize, FindDot, IsAttention, IsMlp;
    var rest := layer + "." + tail;
    assert "layers." + layer + "." + tail == "layers." + rest;
    assert ("layers." + rest)[|"layers."|..] == rest;
    FirstDot(layer, tail);
    assert rest[..|layer|] == layer && rest[|layer| + 1..] == tail;
  }

  /** The importer derives an MLP's bits from the layer number, the checkpoint declares them by the
      spelling. For every spelling the two agree exactly when: digits make a number that fits a `usize`
      and is not a wide layer spelled with a leading zero; anything else does not parse either. */
  lemma ScheduleMatchesDeclaration(layer: string, tail: string)
    requires '.' !in layer && IsMlp(tail)
    ensures TextLinearBits("layers." + layer + "." + tail) == DeclaredMlpBits(layer)
            <==> if AllDigits(layer) && layer != "" then
                   Digits(layer) < 0x1_0000_0000_0000_0000
                   && !(|layer| > 1 && layer[0] == '0' && Digits(layer) <= WIDE_LAYERS)
                 else ParseUsize(layer).None?
  {
    hide TextLinearBits, ParseUsize, Digits, IsMlp;
    TextLinearRoute(layer, tail);
    MlpIsNotAttention(tail);
    if AllDigits(layer) && layer != "" {
      ParseDigits(layer);
      if |layer| == 1 || layer[0] != '0' {
        WideLayer(layer);
      }
    }
  }

  /** A layer spelled `05` gets 4 bits where the checkpoint declares 2, and `+5` gets 4 where it declares
      nothing. */
  lemma ScheduleDiffers()
    ensures TextLinearBits("layers.05.mlp.up_proj") == Some(4) && DeclaredMlpBits("05") == Some(2)
    ensures TextLinearBits("layers.+5.mlp.up_proj") == Some(4) && DeclaredMlpBits("+5") == None
  {
    hide TextLinearBits;
    var tail := "mlp.up_proj";
    MlpIsNotAttention(tail);
    assert "05"[..1] == "0" && "05"[1..] == "5" && "0"[..0] == "" && "5"[..0] == "";
    assert '0' in "05" && '5' in "05" && '+' in "+5" && "+5"[1..] == "5";
    assert Digits("05") == 10 * Digits("0") + 5;
    ParseDigits("05");
    ParsePlus("5");
    TextLinearRoute("05", tail);
    TextLinearRoute("+5", tail);
    assert "layers." + "05" + "." + tail == "layers.05.mlp.up_proj";
    assert "layers." + "+5" + "." + tail == "layers.+5.mlp.up_proj";
  }

  lemma ParsePlus(digits: string)
    requires AllDigits(digits) && digits != "" && Digits(digits) < 0x1_0000_0000_0000_0000
    ensures ParseUsize("+" + digits) == Some(Digits(digits))
  {
    assert "+" <= "+" + digits && ("+" + digits)[1..] == digits;
  }

  lemma MlpIsNotAttention(tail: string)
    requires IsMlp(tail)
    ensures !IsAttention(tail)
  {
    FirstTwo(tail, "mlp.gate_proj");
    FirstTwo(tail, "mlp.up_proj");
    FirstTwo(tail, "mlp.down_proj");
    FirstTwo(tail, "self_attn.q_proj");
    FirstTwo(tail, "self_attn.k_proj");
    FirstTwo(tail, "self_attn.v_proj");
    FirstTwo(tail, "self_attn.o_proj");
  }
}
