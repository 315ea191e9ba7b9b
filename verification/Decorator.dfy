/** Decorator: a text message can be wrapped in any number of decorators,
    each of which puts a fixed prefix and suffix around the content of the
    message it wraps. */
module Decorator {
  import opened Wrappers

  /** The `IMessage` objects: the concrete `TextMessage`, the two concrete
      decorators, and `Passthrough` for a decorator that keeps
      `MessageDecorator`'s own `Content`. Each decorator holds the message it
      wraps. */
  datatype Message =
    | TextMessage(text: string)
    | EncryptedMessage(inner: Message)
    | HTMLMessage(inner: Message)
    /** No such class exists in the C#: this case only models the base
        `MessageDecorator.Content`, which returns the inner content. */
    | Passthrough(inner: Message)

  const EncryptedPrefix := "Encrypted("
  const EncryptedSuffix := ")"
  const HTMLPrefix := "<html><body>"
  const HTMLSuffix := "</body></html>"

  /** `Content` of each kind of message. Decorators compose inside out and
      only ever add their fixed text: the content of any chain is the core
      text between the decorators' openings and closings, 11 characters
      longer per encryption layer and 26 per HTML layer. */
  function Content(m: Message): (r: string)
    ensures r == Opening(m) + Core(m) + Closing(m)
    ensures |r| == |Core(m)| + 11 * Layers(m).0 + 26 * Layers(m).1
  {
    match m
    case TextMessage(text) => text
    case EncryptedMessage(inner) => EncryptedPrefix + Content(inner) + EncryptedSuffix
    case HTMLMessage(inner) => HTMLPrefix + Content(inner) + HTMLSuffix
    case Passthrough(inner) => Content(inner)
  }

  /** Strips `prefix` and `suffix` from `s`, if `s` has both. */
  function Unwrap(s: string, prefix: string, suffix: string): (r: Option<string>)
    ensures r.Some? <==> |s| >= |prefix| + |suffix| && s[..|prefix|] == prefix && s[|s| - |suffix|..] == suffix
    ensures r.Some? ==> prefix + r.value + suffix == s
  {
    if |s| >= |prefix| + |suffix| && s[..|prefix|] == prefix && s[|s| - |suffix|..] == suffix then
      var inner := s[|prefix|..|s| - |suffix|];
      assert s == s[..|prefix|] + inner + s[|s| - |suffix|..];
      Some(inner)
    else
      None
  }

  /** The plain message's content is its constructor argument, and the base
      decorator passes its inner content through unchanged. */
  lemma PlainContents(text: string, inner: Message)
    ensures Content(TextMessage(text)) == text
    ensures Content(Passthrough(inner)) == Content(inner)
  {
  }

  /** `EncryptedMessage` adds exactly 11 characters and `HTMLMessage`
      exactly 26, and stripping the fixed prefix and suffix recovers the
      wrapped content. */
  lemma {:induction false} WrappingRoundTrip(m: Message)
    ensures |Content(EncryptedMessage(m))| == |Content(m)| + 11
    ensures |Content(HTMLMessage(m))| == |Content(m)| + 26
    ensures Unwrap(Content(EncryptedMessage(m)), EncryptedPrefix, EncryptedSuffix) == Some(Content(m))
    ensures Unwrap(Content(HTMLMessage(m)), HTMLPrefix, HTMLSuffix) == Some(Content(m))
  {
    var c := Content(m);
    var e := EncryptedPrefix + c + EncryptedSuffix;
    assert e[..|EncryptedPrefix|] == EncryptedPrefix && e[|e| - |EncryptedSuffix|..] == EncryptedSuffix;
    assert e[|EncryptedPrefix|..|e| - |EncryptedSuffix|] == c;
    var h := HTMLPrefix + c + HTMLSuffix;
    assert h[..|HTMLPrefix|] == HTMLPrefix && h[|h| - |HTMLSuffix|..] == HTMLSuffix;
    assert h[|HTMLPrefix|..|h| - |HTMLSuffix|] == c;
  }

  /** Wrapping is injective: two decorated messages of the same kind with
      equal content wrap equal content. */
  lemma WrappingIsInjective(a: Message, b: Message)
    ensures Content(EncryptedMessage(a)) == Content(EncryptedMessage(b)) ==> Content(a) == Content(b)
    ensures Content(HTMLMessage(a)) == Content(HTMLMessage(b)) ==> Content(a) == Content(b)
  {
    WrappingRoundTrip(a);
    WrappingRoundTrip(b);
  }

  /** The plain text at the core of a chain of decorators. */
  function Core(m: Message): string {
    match m
    case TextMessage(text) => text
    case EncryptedMessage(inner) => Core(inner)
    case HTMLMessage(inner) => Core(inner)
    case Passthrough(inner) => Core(inner)
  }

  /** The number of `EncryptedMessage` and of `HTMLMessage` layers. */
  function Layers(m: Message): (int, int) {
    match m
    case TextMessage(_) => (0, 0)
    case EncryptedMessage(inner) => (Layers(inner).0 + 1, Layers(inner).1)
    case HTMLMessage(inner) => (Layers(inner).0, Layers(inner).1 + 1)
    case Passthrough(inner) => Layers(inner)
  }

  /** The text the decorators of `m` put before the core, outermost first. */
  function Opening(m: Message): string {
    match m
    case TextMessage(_) => ""
    case EncryptedMessage(inner) => EncryptedPrefix + Opening(inner)
    case HTMLMessage(inner) => HTMLPrefix + Opening(inner)
    case Passthrough(inner) => Opening(inner)
  }

  /** The text the decorators of `m` put after the core, innermost first. */
  function Closing(m: Message): string {
    match m
    case TextMessage(_) => ""
    case EncryptedMessage(inner) => Closing(inner) + EncryptedSuffix
    case HTMLMessage(inner) => Closing(inner) + HTMLSuffix
    case Passthrough(inner) => Closing(inner)
  }

  /** The driver's encrypted message. */
  lemma EncryptedGreeting()
    ensures Content(EncryptedMessage(TextMessage("Hello, World!"))) == "Encrypted(Hello, World!)"
  {
    assert Content(TextMessage("Hello, World!")) == "Hello, World!";
  }

  /** The driver's HTML message. */
  lemma HTMLGreeting()
    ensures Content(HTMLMessage(TextMessage("Hello, World!"))) == "<html><body>Hello, World!</body></html>"
  {
    assert Content(TextMessage("Hello, World!")) == "Hello, World!";
  }

  /** An HTML wrapper around an encrypted message nests the encryption
      inside the HTML. */
  lemma NestedGreeting()
    ensures Content(HTMLMessage(EncryptedMessage(TextMessage("Hi"))))
         == "<html><body>Encrypted(Hi)</body></html>"
  {
    var inner := EncryptedMessage(TextMessage("Hi"));
    assert Content(inner) == EncryptedPrefix + "Hi" + EncryptedSuffix by {
      assert Content(TextMessage("Hi")) == "Hi";
    }
    assert EncryptedPrefix + "Hi" + EncryptedSuffix == "Encrypted(Hi)";
    assert Content(HTMLMessage(inner)) == HTMLPrefix + "Encrypted(Hi)" + HTMLSuffix;
  }
}
