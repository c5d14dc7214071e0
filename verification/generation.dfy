/**
 * The language-model backend as the agents see it (`BaseLLMProvider.generate`
 * in src/providers/base_provider.py): one call takes a prompt, a system
 * prompt and a token budget, and either returns text or raises.  The
 * backend itself is not modelled; each call's outcome is supplied from
 * outside.
 */
module Generation {

  /** The arguments of one `generate` call (the sampling temperature is left out). */
  datatype Request = Request(prompt: string, systemPrompt: string, maxTokens: nat)

  /** What one call does: returns `text`, or raises an exception whose text is `message`. */
  datatype Outcome = Ok(text: string) | Err(message: string)
}
