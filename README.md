# ZMQ socket-type registry of the Emacs ZMQ module

This project models the socket-type registry in `src/module.c` of a small
Emacs dynamic module. The module lets Emacs Lisp create ZMQ sockets, connect
and disconnect them, and send and receive strings. The registry is the only
logic the module owns. It has three parts:

- twelve integer socket-type codes, `ZMQ_PAIR` = 0 through `ZMQ_STREAM` = 11,
  plus the marker `ZMQ_INVALID` = -1;
- the range check `socket_type_valid`;
- two translations. `socket_type_to_elisp` turns a valid code into an Emacs
  keyword such as `:zmq-pair`. `socket_type_to_c` turns a keyword back into
  a code, or into `ZMQ_INVALID` when the keyword names no socket type.

Both translations are pure, so the model has one module, `ZmqSocketTypes` in
`zmq_socket_types.dfy`, made of constants, functions and lemmas. Keywords
are interned symbols, and `eq` on interned symbols compares their names. A
keyword is therefore modelled as its name, a `string`. `socket_type_to_c`
accepts any Lisp value, and whatever is not `eq` to one of the twelve
interned keywords yields `ZMQ_INVALID`. That includes a Lisp string `":zmq-
pair"`, an integer, and an uninterned symbol named `:zmq-pair`. The model
stands for such a value by any name outside the twelve, and `SocketTypeToC`
maps every such name to `ZMQ_INVALID`. The `switch` and the `if`/`else`
chain become `if`/`else` chains over the same constants, in the same order.
The `assert` at the top of `socket_type_to_elisp` becomes a `requires`. The
`default` branch is kept and marked `assert false`, so the verifier checks
that the precondition makes it unreachable.

The model also keeps two lists as constants. `SocketTypeCodes` holds the
twelve codes in declaration order. `NewSocketKeywords` holds the twelve
keywords that the docstring of `spoofax-module/new-socket` lists
(src/module.c:325-327). The lemmas tie the two translations to these lists.

## Model

| member | source | states |
|---|---|---|
| `ZmqSocketTypes.SocketTypeValid` | src/module.c:133-135 | A code is valid exactly when it is one of the twelve declared socket-type codes; `ZMQ_INVALID` is never valid. |
| `ZmqSocketTypes.SocketTypeToElisp` | src/module.c:137-154 | For a valid code, the function returns one of the documented keywords, never the default branch's `:unkown-socket-type`. Translating that keyword back gives the code again. |
| `ZmqSocketTypes.SocketTypeToC` | src/module.c:156-170 | The result is a valid code or `ZMQ_INVALID`. It is `ZMQ_INVALID` exactly when the keyword is not one of the documented twelve. Otherwise the keyword sits at that code's position in the docstring list. |
| `ZmqSocketTypes.SocketTypeCodesContiguous` | src/module.c:114-131 | There are twelve codes. The i-th declared code is i, so the codes cover 0..11 with no gap. They are twelve distinct values, and `ZMQ_INVALID` is not among them. |
| `ZmqSocketTypes.NewSocketKeywordsDistinct` | src/module.c:325-327 | The docstring's keywords are pairwise distinct, so there are as many of them as there are codes. |
| `ZmqSocketTypes.NewSocketKeywordsInCodeOrder` | src/module.c:140-151 | The keyword the switch gives code t is the t-th keyword of the docstring list. |
| `ZmqSocketTypes.KeywordRoundTrip` | src/module.c:157-168 | For each of the twelve keywords, translating it to a code gives a valid code, and translating that code back gives the same keyword. |
| `ZmqSocketTypes.SocketTypeToElispInjective` | src/module.c:140-151 | Two valid codes get the same keyword if and only if they are the same code. |
| `ZmqSocketTypes.AcceptedKeywordsAreDocumented` | src/module.c:157-169 | `socket_type_to_c` yields a valid code for a keyword if and only if the docstring lists that keyword. |
| `ZmqSocketTypes.SocketTypeToElispOnto` | src/module.c:137-154 | The keywords produced from the codes 0..11 are exactly the docstring's keywords. |
| `ZmqSocketTypes.UnknownKeywordIsInvalid` | src/module.c:152 | The default branch's keyword is not accepted back: it maps to `ZMQ_INVALID`. |

## Left out

- The Emacs embedding macros (`SYM`, `INT`, `STR`, `EQ`, `CALL`, `DEFUN`, `DEFN`, `MESSAGE`, `PROVIDE`, src/module.c:33-112) and `emacs_module_init` (src/module.c:319-352). They only call into the Emacs runtime. The one thing the model uses from them is that `EQ` on interned keywords is equality of names. The docstring text of `new-socket` appears only as the constant `NewSocketKeywords`.
- The `Fzmq_*` subrs (create, destroy, connect, disconnect, send, receive; src/module.c:175-314). Their behaviour is czmq's blocking network I/O plus Emacs string copying. Most of their own logic is "return nil on a null argument or a failed call", with these exceptions:
  - `Fzmq_disconnect` (src/module.c:244) and `Fzmq_send` (src/module.c:274) leave the null-socket check empty, so they go on to call czmq with a null socket.
  - `Fzmq_receive` (src/module.c:306-309) does not check what `zstr_recv` returns before taking its `strlen`.
  - `Fzmq_send` (src/module.c:288-289) stores `zstr_send`'s integer status in a `bool` and returns nil when it is 0. czmq reports success as 0, so a successful send returns nil. czmq's conventions are outside this model.
  - `Fzmq_new_socket` passes the result of `socket_type_to_c` to `zsock_new` without checking it, so an unknown keyword reaches czmq as -1. Whether czmq rejects it is outside this model.
- The `strlen`-based length in the receive subr (src/module.c:309). It truncates a message at its first zero byte, but it depends on the buffer the foreign `zstr_recv` returns.
- The commented-out diagnostic and errno macros `FMT`, `ZMQ_ERR_DIAG` and `RETURN_ZMQ_ERROR_KW` (src/module.c:80-106). They are dead code.
- `build.py`. It is a build script that runs `pkg-config` and `gcc`; it has no behaviour to state.
- SocketTypeToElisp: the model requires a valid code, as the C `assert` does. It does not model a build with `NDEBUG`, where the `assert` is compiled out and an invalid code would return the misspelled `:unkown-socket-type`. `UnknownKeywordIsInvalid` shows that this keyword would not translate back.
- Connection and endpoint state, message queues and payload round trips. This module has none of them; they belong to czmq and libzmq.
