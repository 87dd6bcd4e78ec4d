/** Option and Result, the two failure-carrying datatypes the model uses. */
module Wrappers {

  datatype Option<+T> = None | Some(value: T)

  /** A Python call either returns a value or raises; `Err` carries the raised error. */
  datatype Result<+T, +E> = Ok(value: T) | Err(error: E)
}

/**
 * The exceptions that escape the crawler, one constructor per raising site,
 * plus `PageLimitReached`, which the model's own page bound raises.
 */
module Errors {
  import opened Wrappers

  datatype CrawlError =
    | MalformedLinkOption(option: string)    // `key, val = opt.split('=')` did not unpack
    | LinkWithoutHref                        // `link['href']` on a tag without href
    | NoReverseMatch(language: string, route: Option<string>)  // `_reverse_with_prefix` raised
    | UnknownHost(domain: string)            // `settings.FROZEN_ROOT[domain]` raised KeyError
    | PageLimitReached(url: string)          // the model's bound on one pagination chain
    | ArgumentClash(name: string)            // a `**params` key named like an explicit argument of the call
}
